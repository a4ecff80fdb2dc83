/** The reverse of a DAG's dependency lists. */
module DagDependents {
  import opened Sequences
  import opened Dag

  /** `dependents[x]` lists the nodes whose deps contain x. */
  ghost predicate DependentsOf(nodes: seq<Node>, dependents: map<string, seq<string>>) {
    && dependents.Keys == Names(nodes)
    && forall d, p :: d in dependents ==> (p in dependents[d] <==> DependsOn(nodes, d, p))
  }

  /** How often the nodes name `d` as a dependency. */
  ghost function Uses(nodes: seq<Node>, d: string): nat {
    if nodes == [] then 0 else Uses(nodes[..|nodes| - 1], d) + multiset(nodes[|nodes| - 1].deps)[d]
  }

  ghost predicate NoListRepeats(dependents: map<string, seq<string>>) {
    forall d :: d in dependents ==> NoRepeats(dependents[d])
  }

  ghost predicate ListedNowhere(dependents: map<string, seq<string>>, name: string) {
    forall d :: d in dependents ==> name !in dependents[d]
  }

  /** Adds the node to the list of each of its dependencies: as often as the node names it, or `once`. */
  method AddDependent(dependents: map<string, seq<string>>, node: Node, once: bool) returns (r: map<string, seq<string>>)
    requires forall d :: d in node.deps ==> d in dependents
    ensures r.Keys == dependents.Keys
    ensures forall d, p :: d in r ==> (p in r[d] <==> p in dependents[d] || (p == node.name && d in node.deps))
    ensures once && NoListRepeats(dependents) && ListedNowhere(dependents, node.name) ==> NoListRepeats(r)
    ensures !once ==> forall d :: d in r ==> |r[d]| == |dependents[d]| + multiset(node.deps)[d]
  {
    r := dependents;
    var seen: set<string> := {};
    for i := 0 to |node.deps|
      invariant r.Keys == dependents.Keys && forall d :: d in seen <==> d in node.deps[..i]
      invariant forall d, p :: d in r ==> (p in r[d] <==> p in dependents[d] || (p == node.name && d in node.deps[..i]))
      invariant once && NoListRepeats(dependents) && ListedNowhere(dependents, node.name) ==> NoListRepeats(r)
      invariant !once ==> forall d :: d in r ==> |r[d]| == |dependents[d]| + multiset(node.deps[..i])[d]
    {
      assert node.deps[..i + 1] == node.deps[..i] + [node.deps[i]];
      var dep := node.deps[i];
      if !once || dep !in seen { r := r[dep := r[dep] + [node.name]]; }
      seen := seen + {dep};
    }
    assert node.deps[..|node.deps|] == node.deps;
  }

  lemma KnownDep(nodes: seq<Node>, node: Node, d: string)
    requires KnownDeps(nodes) && node in nodes && d in node.deps
    ensures d in Names(nodes)
  {}

  lemma DependsOnOneMore(nodes: seq<Node>, node: Node, d: string, p: string)
    ensures DependsOn(nodes + [node], d, p) <==> DependsOn(nodes, d, p) || (p == node.name && d in node.deps)
  {
    if DependsOn(nodes, d, p) {
      var n :| n in nodes && n.name == p && d in n.deps;
      assert n in nodes + [node];
    }
    assert node in nodes + [node];
  }

  method EmptyLists(nodes: seq<Node>) returns (dependents: map<string, seq<string>>)
    ensures dependents.Keys == Names(nodes) && forall d :: d in dependents ==> dependents[d] == []
  {
    dependents := map[];
    for i := 0 to |nodes|
      invariant dependents.Keys == Names(nodes[..i])
      invariant forall d :: d in dependents ==> dependents[d] == []
    {
      dependents := dependents[nodes[i].name := []];
    }
    assert nodes[..|nodes|] == nodes;
  }

  /** The dependents of every node; with `once`, none is listed twice for the same node. */
  method Dependents(nodes: seq<Node>, once: bool) returns (dependents: map<string, seq<string>>)
    requires KnownDeps(nodes)
    ensures DependentsOf(nodes, dependents)
    ensures once && DistinctNames(nodes) ==> NoListRepeats(dependents)
    ensures !once ==> forall d :: d in dependents ==> |dependents[d]| == Uses(nodes, d)
  {
    hide DistinctNames;
    dependents := EmptyLists(nodes);
    assert forall d :: Uses(nodes[..0], d) == 0;
    for i := 0 to |nodes|
      invariant dependents.Keys == Names(nodes)
      invariant forall d, p :: d in dependents ==> (p in dependents[d] <==> DependsOn(nodes[..i], d, p))
      invariant once && DistinctNames(nodes) ==> NoListRepeats(dependents)
      invariant !once ==> forall d :: d in dependents ==> |dependents[d]| == Uses(nodes[..i], d)
    {
      forall d | d in nodes[i].deps ensures d in dependents { KnownDep(nodes, nodes[i], d); }
      if DistinctNames(nodes) { NotListedYet(nodes, i, dependents); }
      UsesOneMore(nodes, i);
      hide NoListRepeats, ListedNowhere, KnownDeps, DependsOn, Uses;
      dependents := AddDependent(dependents, nodes[i], once);
      assert nodes[..i + 1] == nodes[..i] + [nodes[i]];
      forall d, p ensures DependsOn(nodes[..i + 1], d, p) <==> DependsOn(nodes[..i], d, p) || (p == nodes[i].name && d in nodes[i].deps) {
        DependsOnOneMore(nodes[..i], nodes[i], d, p);
      }
    }
    assert nodes[..|nodes|] == nodes;
  }

  lemma UsesOneMore(nodes: seq<Node>, i: nat)
    requires i < |nodes|
    ensures forall d :: Uses(nodes[..i + 1], d) == Uses(nodes[..i], d) + multiset(nodes[i].deps)[d]
  {
    assert nodes[..i + 1][..i] == nodes[..i];
  }

  lemma NotListedYet(nodes: seq<Node>, i: nat, dependents: map<string, seq<string>>)
    requires i < |nodes| && DistinctNames(nodes)
    requires forall d, p :: d in dependents ==> (p in dependents[d] <==> DependsOn(nodes[..i], d, p))
    ensures ListedNowhere(dependents, nodes[i].name)
  {
    assert forall n :: n in nodes[..i] ==> n.name != nodes[i].name;
  }
}
