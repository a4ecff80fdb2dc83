/** The producer's side of addDAG: the calls it makes for a set of nodes, level by level from the nodes
    nothing depends on down to the leaves.
 */
module DagSubmission {
  import opened Wrappers
  import opened Dag
  import DagCycle
  import DagDependents
  import opened DagProtocol
  import DagSafety

  ghost function TopologyOf(nodes: seq<Node>, queueOf: string -> string): Topology {
    Topology(Names(nodes), set n, d | n in nodes && d in n.deps :: (d, n.name), queueOf)
  }

  lemma EdgeOf(nodes: seq<Node>, queueOf: string -> string, d: string, p: string)
    ensures (d, p) in TopologyOf(nodes, queueOf).edges <==> DependsOn(nodes, d, p)
  {
    if (d, p) in TopologyOf(nodes, queueOf).edges {
      var n, x :| n in nodes && x in n.deps && (x, n.name) == (d, p);
      assert DependsOn(nodes, d, p);
    }
  }

  // ---- Logs of calls ----

  /** Every call of the log is made when it is enabled. */
  ghost predicate Legal(t: Topology, ops: seq<Op>) {
    forall i :: 0 <= i < |ops| ==> Enabled(t, Ops(ops[..i]), ops[i])
  }

  lemma LegalAppend(t: Topology, ops: seq<Op>, op: Op)
    requires Legal(t, ops) && Enabled(t, Ops(ops), op)
    ensures Legal(t, ops + [op]) && Ops(ops + [op]) == Ops(ops) + {op}
  {
    hide Enabled;
    forall i | 0 <= i < |ops + [op]| ensures Enabled(t, Ops((ops + [op])[..i]), (ops + [op])[i]) {
      if i < |ops| {
        assert (ops + [op])[..i] == ops[..i];
      } else {
        assert (ops + [op])[..i] == ops;
      }
    }
  }

  lemma OpsConcat(a: seq<Op>, b: seq<Op>)
    ensures Ops(a + b) == Ops(a) + Ops(b)
  {}

  /** Calls that only wire existing nodes stay enabled. */
  lemma WiringStaysEnabled(t: Topology, issued: set<Op>, more: set<Op>, op: Op)
    requires Enabled(t, issued, op) && !AddsNode(op) && issued <= more
    ensures Enabled(t, more, op)
  {
    forall n | Added(issued, n) ensures Added(more, n) {
      var o :| o in issued && (o.AddFlow? || o.AddJob?) && o.node == n;
      assert o in more;
    }
  }

  /** Wiring calls that are all enabled already can be made in any order. */
  ghost predicate BatchReady(t: Topology, issued: set<Op>, batch: seq<Op>) {
    forall op :: op in batch ==> !AddsNode(op) && Enabled(t, issued, op)
  }

  lemma BatchStaysReady(t: Topology, issued: set<Op>, more: set<Op>, batch: seq<Op>)
    requires BatchReady(t, issued, batch) && issued <= more
    ensures BatchReady(t, more, batch)
  {
    hide Enabled, AddsNode;
    forall op | op in batch ensures !AddsNode(op) && Enabled(t, more, op) { WiringStaysEnabled(t, issued, more, op); }
  }

  lemma {:induction false} LegalBatch(t: Topology, ops: seq<Op>, batch: seq<Op>)
    requires Legal(t, ops) && BatchReady(t, Ops(ops), batch)
    ensures Legal(t, ops + batch) && Ops(ops + batch) == Ops(ops) + Ops(batch) && OnlyWired(Ops(ops), Ops(ops + batch))
    decreases |batch|
  {
    hide Enabled, AddsNode, Legal;
    OpsConcat(ops, batch);
    if batch == [] {
      assert ops + batch == ops;
    } else {
      LegalAppend(t, ops, batch[0]);
      var rest := batch[1..];
      assert BatchReady(t, Ops(ops), rest);
      BatchStaysReady(t, Ops(ops), Ops(ops + [batch[0]]), rest);
      LegalBatch(t, ops + [batch[0]], rest);
      assert ops + batch == ops + [batch[0]] + rest;
    }
  }

  /** Only wiring calls separate the two logs. */
  ghost predicate OnlyWired(before: set<Op>, after: set<Op>) {
    before <= after && forall op :: op in after && op !in before ==> !AddsNode(op)
  }

  lemma WiringAddsNothing(before: set<Op>, after: set<Op>)
    requires OnlyWired(before, after)
    ensures forall n :: Added(after, n) <==> Added(before, n)
    ensures LeafAdded(after) <==> LeafAdded(before)
  {
    forall n | Added(before, n) ensures Added(after, n) {
      var op :| op in before && (op.AddFlow? || op.AddJob?) && op.node == n;
      assert op in after;
    }
    if LeafAdded(before) {
      var op :| op in before && op.AddJob?;
      assert op in after;
    }
  }

  // ---- Dependents and levels ----

  /** The lists of dependents are the edges of the topology. */
  ghost predicate DependentsOk(t: Topology, dependents: map<string, seq<string>>) {
    && dependents.Keys == t.names
    && forall d, p :: d in dependents ==> (p in dependents[d] <==> (d, p) in t.edges)
  }

  /** A node is listed as often as it is named. */
  ghost predicate CountsOk(nodes: seq<Node>, dependents: map<string, seq<string>>) {
    forall d :: d in dependents ==> |dependents[d]| == DagDependents.Uses(nodes, d)
  }

  method Dependents(nodes: seq<Node>, ghost queueOf: string -> string) returns (dependents: map<string, seq<string>>)
    requires KnownDeps(nodes)
    ensures DependentsOk(TopologyOf(nodes, queueOf), dependents) && CountsOk(nodes, dependents)
  {
    dependents := DagDependents.Dependents(nodes, false);
    forall d, p ensures (d, p) in TopologyOf(nodes, queueOf).edges <==> DependsOn(nodes, d, p) { EdgeOf(nodes, queueOf, d, p); }
  }

  /** A node lies strictly above its dependencies, and exactly the nodes without any are at level 0. */
  ghost predicate LevelsOk(nodes: seq<Node>, levels: map<string, nat>) {
    && (forall n :: n in nodes ==> n.name in levels)
    && (forall n, d :: n in nodes && d in n.deps ==> d in levels && levels[d] < levels[n.name])
    && (forall n :: n in nodes ==> (levels[n.name] == 0 <==> n.deps == []))
  }

  /** Level of a node: the longest chain of dependencies below it. */
  method LevelOf(node: Node, levels: map<string, nat>) returns (lvl: nat)
    requires forall d :: d in node.deps ==> d in levels
    ensures forall d :: d in node.deps ==> levels[d] < lvl
    ensures lvl == 0 <==> node.deps == []
    ensures lvl > 0 ==> exists d :: d in node.deps && levels[d] + 1 == lvl
  {
    lvl := 0;
    for i := 0 to |node.deps|
      invariant forall d :: d in node.deps[..i] ==> levels[d] < lvl
      invariant lvl == 0 <==> i == 0
      invariant lvl > 0 ==> exists d :: d in node.deps && levels[d] + 1 == lvl
    {
      var dep := node.deps[i];
      lvl := if lvl >= levels[dep] + 1 then lvl else levels[dep] + 1;
    }
  }

  /** The levels so far and their maximum. */
  ghost predicate LeveledSoFar(seen: seq<Node>, levels: map<string, nat>, maxLevel: nat) {
    levels.Keys == Names(seen) && LevelsOk(seen, levels) && forall n :: n in seen ==> n.name in levels && levels[n.name] <= maxLevel
  }

  lemma LevelStep(seen: seq<Node>, node: Node, levels: map<string, nat>, maxLevel: nat, lvl: nat)
    requires LeveledSoFar(seen, levels, maxLevel) && node.name !in Names(seen)
    requires forall d :: d in node.deps ==> d in levels && levels[d] < lvl
    requires lvl == 0 <==> node.deps == []
    ensures LeveledSoFar(seen + [node], levels[node.name := lvl], if lvl > maxLevel then lvl else maxLevel)
  {
    assert forall n :: n in seen ==> n.name in Names(seen);
  }

  lemma DepsSeen(sorted: seq<Node>, i: nat)
    requires DistinctNames(sorted) && DepsFirst(sorted) && i < |sorted|
    ensures sorted[i].name !in Names(sorted[..i]) && forall d :: d in sorted[i].deps ==> d in Names(sorted[..i])
  {
    forall d | d in sorted[i].deps ensures d in Names(sorted[..i]) {
      var j :| 0 <= j < i && sorted[j].name == d;
      assert sorted[j] in sorted[..i];
    }
  }

  method Levels(sorted: seq<Node>) returns (levels: map<string, nat>, maxLevel: nat)
    requires DistinctNames(sorted) && DepsFirst(sorted)
    ensures LevelsOk(sorted, levels)
    ensures forall n :: n in sorted ==> levels[n.name] <= maxLevel
  {
    levels, maxLevel := map[], 0;
    for i := 0 to |sorted|
      invariant LeveledSoFar(sorted[..i], levels, maxLevel)
    {
      hide LevelsOk, DistinctNames, DepsFirst;
      var node := sorted[i];
      DepsSeen(sorted, i);
      var lvl := LevelOf(node, levels);
      LevelStep(sorted[..i], node, levels, maxLevel, lvl);
      levels := levels[node.name := lvl];
      if lvl > maxLevel { maxLevel := lvl; }
      assert sorted[..i + 1] == sorted[..i] + [node];
    }
    assert sorted[..|sorted|] == sorted;
  }

  /** The nodes of one level, in topological order. */
  method AtLevel(sorted: seq<Node>, levels: map<string, nat>, lvl: nat) returns (ns: seq<Node>)
    requires DistinctNames(sorted) && forall n :: n in sorted ==> n.name in levels
    ensures DistinctNames(ns) && forall n :: n in ns <==> n in sorted && levels[n.name] == lvl
  {
    ns := [];
    for i := 0 to |sorted|
      invariant DistinctNames(ns) && forall n :: n in ns <==> n in sorted[..i] && levels[n.name] == lvl
    {
      if levels[sorted[i].name] == lvl { ns := ns + [sorted[i]]; }
    }
    assert sorted[..|sorted|] == sorted;
  }

  // ---- The calls of a whole submission ----

  /** The edge is made by the call that adds the child: a leaf that is named once, by a node of its own queue. */
  ghost predicate LinkedByAdding(nodes: seq<Node>, t: Topology, d: string, p: string) {
    IsLeaf(t, d) && (d, p) in t.edges && SameQueue(t, d, p) && DagDependents.Uses(nodes, d) == 1
  }

  /** Whether a submission of the nodes makes the call at all. */
  ghost predicate Called(nodes: seq<Node>, t: Topology, op: Op) {
    match op
    case AddFlow(n) => n in t.names && !IsLeaf(t, n)
    case AddJob(n, None) => IsLeaf(t, n) && forall p :: !LinkedByAdding(nodes, t, n, p)
    case AddJob(n, Some(p)) => LinkedByAdding(nodes, t, n, p)
    case SaddDep(d, p) => (d, p) in t.edges && (IsLeaf(t, d) || !SameQueue(t, d, p))
    case RegisterParent(d, p) => (d, p) in t.edges && SameQueue(t, d, p) && !LinkedByAdding(nodes, t, d, p)
    case SaddParents(d, p) => (d, p) in t.edges && !SameQueue(t, d, p)
    case ReadState(d, p) => (d, p) in t.edges && !SameQueue(t, d, p)
    case NotifyIfCompleted(d, p) => (d, p) in t.edges && !SameQueue(t, d, p)
  }

  /** The node a call adds, or the child it wires. */
  function About(op: Op): string {
    if op.AddFlow? || op.AddJob? then op.node else op.child
  }

  /** The calls made are those about the nodes at level `lvl` or above. */
  ghost predicate CalledFrom(nodes: seq<Node>, t: Topology, levels: map<string, nat>, issued: set<Op>, lvl: nat) {
    forall op :: op in issued <==> Called(nodes, t, op) && About(op) in levels && levels[About(op)] >= lvl
  }

  /** The call wires an edge between two nodes that exist. */
  ghost predicate WiringCall(t: Topology, op: Op) {
    && !AddsNode(op) && (op.child, op.parent) in t.edges
    && (op.RegisterParent? <==> SameQueue(t, op.child, op.parent))
  }

  ghost predicate Registers(ns: seq<Node>, dependents: map<string, seq<string>>, queueOf: string -> string, d: string) {
    exists n :: n in ns && n.name == d && d in dependents && ShouldRegister(n, dependents, queueOf)
  }

  ghost predicate Named(ns: seq<Node>, d: string) {
    exists n :: n in ns && n.name == d
  }

  ghost predicate Submits(ns: seq<Node>, dependents: map<string, seq<string>>, queueOf: string -> string, op: Op) {
    exists n :: n in ns && n.name in dependents && op == Submission(n, dependents, queueOf)
  }

  // ---- Calls of one level ----

  /** What the producer has set up once every node at level `lvl` or above is submitted and wired. */
  ghost predicate AddedFrom(nodes: seq<Node>, levels: map<string, nat>, issued: set<Op>, lvl: nat) {
    && (forall n :: n in nodes ==> n.name in levels && (Added(issued, n.name) <==> levels[n.name] >= lvl))
    && (lvl > 0 ==> !LeafAdded(issued))
  }

  /** The edge is in the parent's deps SET, and its child was linked and reconciled. */
  ghost predicate Settled(issued: set<Op>, d: string, p: string) {
    && Wired(issued, d, p)
    && (AddJob(d, Some(p)) in issued || RegisterParent(d, p) in issued || NotifyIfCompleted(d, p) in issued)
  }

  ghost predicate SettledFrom(t: Topology, levels: map<string, nat>, issued: set<Op>, lvl: nat) {
    forall d, p {:trigger Settled(issued, d, p)} :: (d, p) in t.edges && d in levels && levels[d] >= lvl ==> Settled(issued, d, p)
  }

  lemma SettledStays(t: Topology, levels: map<string, nat>, issued: set<Op>, more: set<Op>, lvl: nat)
    requires SettledFrom(t, levels, issued, lvl) && issued <= more
    ensures SettledFrom(t, levels, more, lvl)
  {
    forall d, p | (d, p) in t.edges && d in levels && levels[d] >= lvl ensures Settled(more, d, p) {
      assert Settled(issued, d, p);
    }
  }

  /** A leaf with a single dependent on its own queue is registered with it by the call that adds it. */
  function TreeParent(node: Node, dependents: map<string, seq<string>>, queueOf: string -> string): Option<string>
    requires node.name in dependents
  {
    var ps := dependents[node.name];
    if |ps| == 1 && queueOf(ps[0]) == queueOf(node.name) then Some(ps[0]) else None
  }

  function Submission(node: Node, dependents: map<string, seq<string>>, queueOf: string -> string): Op
    requires node.name in dependents
  {
    if node.deps != [] then AddFlow(node.name) else AddJob(node.name, TreeParent(node, dependents, queueOf))
  }

  /** Whether the edges to the dependents of a submitted node still have to be wired. */
  predicate ShouldRegister(node: Node, dependents: map<string, seq<string>>, queueOf: string -> string)
    requires node.name in dependents
  {
    var ps := dependents[node.name];
    || (node.deps != [] && |ps| > 0)
    || (node.deps == [] && (|ps| > 1 || (|ps| == 1 && queueOf(ps[0]) != queueOf(node.name))))
  }

  method EdgesFrom(d: string, ps: seq<string>) returns (edges: seq<(string, string)>)
    ensures forall e :: e in edges <==> e.0 == d && e.1 in ps
  {
    edges := [];
    for i := 0 to |ps|
      invariant forall e :: e in edges <==> e.0 == d && e.1 in ps[..i]
    {
      edges := edges + [(d, ps[i])];
    }
    assert ps[..|ps|] == ps;
  }

  /** The edge leaves one of the children, one that still has edges to wire unless `all` are wanted. */
  ghost predicate Wanted(ns: seq<Node>, dependents: map<string, seq<string>>, queueOf: string -> string, all: bool, e: (string, string)) {
    exists n :: n in ns && n.name == e.0 && n.name in dependents && e.1 in dependents[n.name] && (all || ShouldRegister(n, dependents, queueOf))
  }

  method CollectEdges(ns: seq<Node>, dependents: map<string, seq<string>>, queueOf: string -> string, all: bool)
    returns (edges: seq<(string, string)>)
    requires forall n :: n in ns ==> n.name in dependents
    ensures forall e :: e in edges <==> Wanted(ns, dependents, queueOf, all, e)
  {
    edges := [];
    for i := 0 to |ns|
      invariant forall e :: e in edges <==> Wanted(ns[..i], dependents, queueOf, all, e)
    {
      assert ns[..i + 1] == ns[..i] + [ns[i]];
      if all || ShouldRegister(ns[i], dependents, queueOf) {
        var more := EdgesFrom(ns[i].name, dependents[ns[i].name]);
        edges := edges + more;
      }
    }
    assert ns[..|ns|] == ns;
  }

  method SplitByQueue(edges: seq<(string, string)>, queueOf: string -> string)
    returns (same: seq<(string, string)>, cross: seq<(string, string)>)
    ensures forall e :: e in same <==> e in edges && queueOf(e.0) == queueOf(e.1)
    ensures forall e :: e in cross <==> e in edges && queueOf(e.0) != queueOf(e.1)
  {
    same, cross := [], [];
    for i := 0 to |edges|
      invariant forall e :: e in same <==> e in edges[..i] && queueOf(e.0) == queueOf(e.1)
      invariant forall e :: e in cross <==> e in edges[..i] && queueOf(e.0) != queueOf(e.1)
    {
      if queueOf(edges[i].0) == queueOf(edges[i].1) { same := same + [edges[i]]; } else { cross := cross + [edges[i]]; }
    }
    assert edges[..|edges|] == edges;
  }

  function SaddDeps(edges: seq<(string, string)>): (calls: seq<Op>)
    ensures forall op :: op in calls <==> op.SaddDep? && (op.child, op.parent) in edges
  {
    if edges == [] then [] else [SaddDep(edges[0].0, edges[0].1)] + SaddDeps(edges[1..])
  }

  function SaddAllParents(edges: seq<(string, string)>): (calls: seq<Op>)
    ensures forall op :: op in calls <==> op.SaddParents? && (op.child, op.parent) in edges
  {
    if edges == [] then [] else [SaddParents(edges[0].0, edges[0].1)] + SaddAllParents(edges[1..])
  }

  function RegisterParents(edges: seq<(string, string)>): (calls: seq<Op>)
    ensures forall op :: op in calls <==> op.RegisterParent? && (op.child, op.parent) in edges
  {
    if edges == [] then [] else [RegisterParent(edges[0].0, edges[0].1)] + RegisterParents(edges[1..])
  }

  /** Both ends of every edge exist. */
  ghost predicate EndsAdded(t: Topology, issued: set<Op>, edges: seq<(string, string)>) {
    forall e :: e in edges ==> e in t.edges && Added(issued, e.0) && Added(issued, e.1)
  }

  /** Adds the listed leaves to the deps SETs of all their dependents before any of them exists. */
  method PresetLeaves(ghost t: Topology, leaves: seq<Node>, dependents: map<string, seq<string>>, queueOf: string -> string, ops0: seq<Op>)
    returns (ops: seq<Op>)
    requires Legal(t, ops0) && DependentsOk(t, dependents) && forall n :: n in leaves ==> n.name in t.names
    requires forall e :: e in t.edges ==> Added(Ops(ops0), e.1)
    ensures Legal(t, ops) && OnlyWired(Ops(ops0), Ops(ops))
    ensures forall n, p :: n in leaves && (n.name, p) in t.edges ==> Wired(Ops(ops), n.name, p)
    ensures forall op :: op in Ops(ops) <==>
                           op in Ops(ops0) || (op.SaddDep? && (op.child, op.parent) in t.edges && Named(leaves, op.child))
  {
    var edges := CollectEdges(leaves, dependents, queueOf, true);
    var batch := SaddDeps(edges);
    forall op | op in batch ensures !AddsNode(op) && Enabled(t, Ops(ops0), op) {
      assert Wanted(leaves, dependents, queueOf, true, (op.child, op.parent));
      assert (op.child, op.parent) in t.edges;
    }
    LegalBatch(t, ops0, batch);
    ops := ops0 + batch;
    forall n, p | n in leaves && (n.name, p) in t.edges ensures Wired(Ops(ops), n.name, p) {
      assert Wanted(leaves, dependents, queueOf, true, (n.name, p));
      assert SaddDep(n.name, p) in batch;
    }
    forall op ensures op in batch <==> op.SaddDep? && (op.child, op.parent) in t.edges && Named(leaves, op.child) {
      if op.SaddDep? { assert (op.child, op.parent) in edges <==> Wanted(leaves, dependents, queueOf, true, (op.child, op.parent)); }
    }
  }

  lemma OnlyWiredTrans(a: set<Op>, b: set<Op>, c: set<Op>)
    requires OnlyWired(a, b) && OnlyWired(b, c)
    ensures OnlyWired(a, c)
  {}

  /** Reads the state of every cross-queue child; one found completed is announced to its parent. */
  method Reconcile(ghost t: Topology, cross: seq<(string, string)>, ops0: seq<Op>) returns (ops: seq<Op>)
    requires Legal(t, ops0) && forall e :: e in cross ==> SaddParents(e.0, e.1) in Ops(ops0)
    ensures Legal(t, ops) && OnlyWired(Ops(ops0), Ops(ops))
    ensures forall e :: e in cross ==> NotifyIfCompleted(e.0, e.1) in Ops(ops)
    ensures forall op :: op in Ops(ops) <==>
                           op in Ops(ops0) || ((op.ReadState? || op.NotifyIfCompleted?) && (op.child, op.parent) in cross)
  {
    hide Legal;
    ops := ops0;
    for i := 0 to |cross|
      invariant Legal(t, ops) && OnlyWired(Ops(ops0), Ops(ops))
      invariant forall e :: e in cross[..i] ==> NotifyIfCompleted(e.0, e.1) in Ops(ops)
      invariant forall op :: op in Ops(ops) <==>
                               op in Ops(ops0) || ((op.ReadState? || op.NotifyIfCompleted?) && (op.child, op.parent) in cross[..i])
    {
      var read, notify := ReadState(cross[i].0, cross[i].1), NotifyIfCompleted(cross[i].0, cross[i].1);
      LegalAppend(t, ops, read);
      ops := ops + [read];
      LegalAppend(t, ops, notify);
      ops := ops + [notify];
    }
    assert cross[..|cross|] == cross;
  }

  /** Wires the edges that the submissions of the listed nodes left open. */
  method WireLevel(ghost t: Topology, ns: seq<Node>, dependents: map<string, seq<string>>, queueOf: string -> string, ops0: seq<Op>)
    returns (ops: seq<Op>)
    requires Legal(t, ops0) && DependentsOk(t, dependents) && t.queueOf == queueOf
    requires forall n :: n in ns ==> n.name in t.names && Added(Ops(ops0), n.name)
    requires forall n, p :: n in ns && (n.name, p) in t.edges ==> Added(Ops(ops0), p)
    ensures Legal(t, ops) && OnlyWired(Ops(ops0), Ops(ops))
    ensures forall n, p :: n in ns && (n.name, p) in t.edges && ShouldRegister(n, dependents, queueOf) ==> Settled(Ops(ops), n.name, p)
    ensures forall op :: op in Ops(ops) <==> op in Ops(ops0) || (WiringCall(t, op) && Registers(ns, dependents, queueOf, op.child))
  {
    var edges := CollectEdges(ns, dependents, queueOf, false);
    var same, cross := SplitByQueue(edges, queueOf);
    forall e | e in edges ensures e in t.edges && Added(Ops(ops0), e.0) && Added(Ops(ops0), e.1) {
      assert Wanted(ns, dependents, queueOf, false, e);
    }
    ops := WireEdges(t, same, cross, ops0);
    forall n, p | n in ns && (n.name, p) in t.edges && ShouldRegister(n, dependents, queueOf) ensures Settled(Ops(ops), n.name, p) {
      assert Wanted(ns, dependents, queueOf, false, (n.name, p));
      assert (n.name, p) in same + cross;
    }
    forall op
      ensures !AddsNode(op) && (op.child, op.parent) in edges <==>
              !AddsNode(op) && (op.child, op.parent) in t.edges && Registers(ns, dependents, queueOf, op.child)
    {
      if !AddsNode(op) { assert (op.child, op.parent) in edges <==> Wanted(ns, dependents, queueOf, false, (op.child, op.parent)); }
    }
  }

  method WireEdges(ghost t: Topology, same: seq<(string, string)>, cross: seq<(string, string)>, ops0: seq<Op>) returns (ops: seq<Op>)
    requires Legal(t, ops0) && EndsAdded(t, Ops(ops0), same + cross)
    requires forall e :: e in same ==> SameQueue(t, e.0, e.1)
    requires forall e :: e in cross ==> !SameQueue(t, e.0, e.1)
    ensures Legal(t, ops) && OnlyWired(Ops(ops0), Ops(ops))
    ensures forall e :: e in same + cross ==> Settled(Ops(ops), e.0, e.1)
    ensures forall op :: op in Ops(ops) <==>
                           || op in Ops(ops0)
                           || (op.RegisterParent? && (op.child, op.parent) in same)
                           || (!AddsNode(op) && !op.RegisterParent? && (op.child, op.parent) in cross)
  {
    hide Legal, EndsAdded, BatchReady, OnlyWired, Settled;
    CrossDepsReady(t, Ops(ops0), same, cross);
    ops := MakeBatch(t, ops0, ops0, SaddDeps(cross));
    CrossParentsReady(t, Ops(ops0), Ops(ops), same, cross);
    ops := MakeBatch(t, ops0, ops, SaddAllParents(cross));
    SameQueueReady(t, Ops(ops0), Ops(ops), same, cross);
    ops := MakeBatch(t, ops0, ops, RegisterParents(same));
    ghost var wired := Ops(ops);
    ops := Reconcile(t, cross, ops);
    OnlyWiredTrans(Ops(ops0), wired, Ops(ops));
    AllSettled(same, cross, wired, Ops(ops));
  }

  /** Sends a batch of wiring calls. */
  method MakeBatch(ghost t: Topology, ghost ops0: seq<Op>, ops1: seq<Op>, batch: seq<Op>) returns (ops: seq<Op>)
    requires Legal(t, ops1) && BatchReady(t, Ops(ops1), batch) && (ops0 == ops1 || OnlyWired(Ops(ops0), Ops(ops1)))
    ensures Legal(t, ops) && OnlyWired(Ops(ops0), Ops(ops)) && Ops(ops) == Ops(ops1) + Ops(batch) && Ops(ops0) <= Ops(ops)
  {
    hide Enabled, Legal, BatchReady;
    LegalBatch(t, ops1, batch);
    ops := ops1 + batch;
  }

  lemma AllSettled(same: seq<(string, string)>, cross: seq<(string, string)>, wired: set<Op>, issued: set<Op>)
    requires OnlyWired(wired, issued)
    requires forall e :: e in cross ==> SaddDep(e.0, e.1) in wired && NotifyIfCompleted(e.0, e.1) in issued
    requires forall e :: e in same ==> RegisterParent(e.0, e.1) in wired
    ensures forall e :: e in same + cross ==> Settled(issued, e.0, e.1)
  {}

  lemma StillAdded(before: set<Op>, after: set<Op>, n: string)
    requires Added(before, n) && before <= after
    ensures Added(after, n)
  {
    var op :| op in before && (op.AddFlow? || op.AddJob?) && op.node == n;
    assert op in after;
  }

  lemma CrossDepsReady(t: Topology, issued: set<Op>, same: seq<(string, string)>, cross: seq<(string, string)>)
    requires EndsAdded(t, issued, same + cross)
    ensures BatchReady(t, issued, SaddDeps(cross))
  {
    forall op | op in SaddDeps(cross) ensures !AddsNode(op) && Enabled(t, issued, op) {
      assert (op.child, op.parent) in same + cross;
    }
  }

  lemma CrossParentsReady(t: Topology, issued: set<Op>, more: set<Op>, same: seq<(string, string)>, cross: seq<(string, string)>)
    requires EndsAdded(t, issued, same + cross) && issued <= more
    requires forall e :: e in cross ==> !SameQueue(t, e.0, e.1) && SaddDep(e.0, e.1) in more
    ensures BatchReady(t, more, SaddAllParents(cross))
  {
    forall op | op in SaddAllParents(cross) ensures !AddsNode(op) && Enabled(t, more, op) {
      assert (op.child, op.parent) in same + cross;
      StillAdded(issued, more, op.child);
    }
  }

  lemma SameQueueReady(t: Topology, issued: set<Op>, more: set<Op>, same: seq<(string, string)>, cross: seq<(string, string)>)
    requires EndsAdded(t, issued, same + cross) && issued <= more
    requires forall e :: e in same ==> SameQueue(t, e.0, e.1)
    ensures BatchReady(t, more, RegisterParents(same))
  {
    forall op | op in RegisterParents(same) ensures !AddsNode(op) && Enabled(t, more, op) {
      assert (op.child, op.parent) in same + cross;
      StillAdded(issued, more, op.child);
      StillAdded(issued, more, op.parent);
    }
  }

  // ---- Adding the nodes of one level ----

  lemma LeafHasNoDeps(nodes: seq<Node>, queueOf: string -> string, n: Node)
    requires DistinctNames(nodes) && n in nodes
    ensures IsLeaf(TopologyOf(nodes, queueOf), n.name) <==> n.deps == []
  {
    var t := TopologyOf(nodes, queueOf);
    if n.deps != [] {
      assert (n.deps[0], n.name) in t.edges;
    } else {
      forall e | e in t.edges ensures e.1 != n.name {
        var m, d :| m in nodes && d in m.deps && e == (d, m.name);
      }
    }
  }

  /** Every node above the level exists, and of the level itself the listed ones. */
  ghost predicate PartlyAdded(nodes: seq<Node>, levels: map<string, nat>, lvl: nat, added: seq<Node>, issued: set<Op>) {
    && (forall n :: n in nodes ==> n.name in levels && (Added(issued, n.name) <==> levels[n.name] > lvl || n in added))
    && (lvl > 0 ==> !LeafAdded(issued))
  }

  ghost predicate AllWired(t: Topology, issued: set<Op>) {
    forall e :: e in t.edges ==> Wired(issued, e.0, e.1)
  }

  lemma SubmissionEnabled(nodes: seq<Node>, levels: map<string, nat>, lvl: nat, added: seq<Node>, issued: set<Op>,
                          node: Node, dependents: map<string, seq<string>>, queueOf: string -> string)
    requires DistinctNames(nodes) && LevelsOk(nodes, levels) && PartlyAdded(nodes, levels, lvl, added, issued)
    requires node in nodes && levels[node.name] == lvl && node !in added
    requires DependentsOk(TopologyOf(nodes, queueOf), dependents)
    requires lvl == 0 ==> AllWired(TopologyOf(nodes, queueOf), issued)
    ensures Enabled(TopologyOf(nodes, queueOf), issued, Submission(node, dependents, queueOf))
  {
    var t := TopologyOf(nodes, queueOf);
    LeafHasNoDeps(nodes, queueOf, node);
    if node.deps == [] {
      forall x | x in t.names && !IsLeaf(t, x) ensures Added(issued, x) {
        var n :| n in nodes && n.name == x;
        LeafHasNoDeps(nodes, queueOf, n);
      }
    }
  }

  lemma SubmissionAdds(nodes: seq<Node>, levels: map<string, nat>, lvl: nat, added: seq<Node>, issued: set<Op>, node: Node, op: Op)
    requires DistinctNames(nodes) && PartlyAdded(nodes, levels, lvl, added, issued) && node in nodes
    requires AddsNode(op) && op.node == node.name && (lvl > 0 ==> !op.AddJob?)
    ensures PartlyAdded(nodes, levels, lvl, added + [node], issued + {op})
  {
    IssuedNow(issued, op);
  }

  method SubmitNode(ghost nodes: seq<Node>, ghost levels: map<string, nat>, ghost lvl: nat, ghost added: seq<Node>, node: Node,
                    dependents: map<string, seq<string>>, queueOf: string -> string, ops0: seq<Op>)
    returns (ops: seq<Op>)
    requires DistinctNames(nodes) && LevelsOk(nodes, levels) && DependentsOk(TopologyOf(nodes, queueOf), dependents)
    requires node in nodes && node.name in levels && levels[node.name] == lvl && node !in added && node.name in dependents
    requires Legal(TopologyOf(nodes, queueOf), ops0) && PartlyAdded(nodes, levels, lvl, added, Ops(ops0))
    requires lvl == 0 ==> AllWired(TopologyOf(nodes, queueOf), Ops(ops0))
    ensures Legal(TopologyOf(nodes, queueOf), ops) && PartlyAdded(nodes, levels, lvl, added + [node], Ops(ops))
    ensures Ops(ops) == Ops(ops0) + {Submission(node, dependents, queueOf)}
    ensures lvl == 0 ==> AllWired(TopologyOf(nodes, queueOf), Ops(ops))
  {
    var op := Submission(node, dependents, queueOf);
    assert AddsNode(op) && op.node == node.name && (lvl > 0 ==> !op.AddJob?);
    hide Legal, PartlyAdded, DependentsOk, TopologyOf, Enabled, AllWired, DistinctNames, LevelsOk, Submission;
    SubmissionEnabled(nodes, levels, lvl, added, Ops(ops0), node, dependents, queueOf);
    LegalAppend(TopologyOf(nodes, queueOf), ops0, op);
    SubmissionAdds(nodes, levels, lvl, added, Ops(ops0), node, op);
    ops := ops0 + [op];
    if lvl == 0 { WiredStays(TopologyOf(nodes, queueOf), Ops(ops0), Ops(ops)); }
  }

  ghost predicate AllSubmitted(ns: seq<Node>, dependents: map<string, seq<string>>, queueOf: string -> string, issued: set<Op>) {
    forall n :: n in ns ==> n.name in dependents && Submission(n, dependents, queueOf) in issued
  }

  lemma OneMoreSubmitted(ns: seq<Node>, i: nat, dependents: map<string, seq<string>>, queueOf: string -> string, issued: set<Op>)
    requires i < |ns| && ns[i].name in dependents && AllSubmitted(ns[..i], dependents, queueOf, issued)
    ensures AllSubmitted(ns[..i + 1], dependents, queueOf, issued + {Submission(ns[i], dependents, queueOf)})
    ensures ns[..i + 1] == ns[..i] + [ns[i]]
  {}

  lemma OneMoreSubmits(ns: seq<Node>, i: nat, dependents: map<string, seq<string>>, queueOf: string -> string)
    requires i < |ns| && ns[i].name in dependents
    ensures forall op :: Submits(ns[..i + 1], dependents, queueOf, op) <==>
                           Submits(ns[..i], dependents, queueOf, op) || op == Submission(ns[i], dependents, queueOf)
  {
    hide Submission;
    assert ns[i] in ns[..i + 1] && forall n :: n in ns[..i + 1] <==> n in ns[..i] || n == ns[i];
    forall op | Submits(ns[..i + 1], dependents, queueOf, op)
      ensures Submits(ns[..i], dependents, queueOf, op) || op == Submission(ns[i], dependents, queueOf)
    {
      var n :| n in ns[..i + 1] && n.name in dependents && op == Submission(n, dependents, queueOf);
    }
    forall op | Submits(ns[..i], dependents, queueOf, op) ensures Submits(ns[..i + 1], dependents, queueOf, op) {
      var n :| n in ns[..i] && n.name in dependents && op == Submission(n, dependents, queueOf);
      assert n in ns[..i + 1];
    }
  }

  lemma NotYet(ns: seq<Node>, i: nat)
    requires DistinctNames(ns) && i < |ns|
    ensures ns[i] !in ns[..i] && ns[i] in ns
  {}

  method SubmitLevel(ghost nodes: seq<Node>, ghost levels: map<string, nat>, ghost lvl: nat, ns: seq<Node>,
                     dependents: map<string, seq<string>>, queueOf: string -> string, ops0: seq<Op>)
    returns (ops: seq<Op>)
    requires DistinctNames(nodes) && LevelsOk(nodes, levels) && DependentsOk(TopologyOf(nodes, queueOf), dependents)
    requires DistinctNames(ns) && forall n :: n in ns ==> n in nodes && n.name in levels && levels[n.name] == lvl && n.name in dependents
    requires Legal(TopologyOf(nodes, queueOf), ops0) && PartlyAdded(nodes, levels, lvl, [], Ops(ops0))
    requires lvl == 0 ==> AllWired(TopologyOf(nodes, queueOf), Ops(ops0))
    ensures Legal(TopologyOf(nodes, queueOf), ops) && Ops(ops0) <= Ops(ops)
    ensures PartlyAdded(nodes, levels, lvl, ns, Ops(ops))
    ensures AllSubmitted(ns, dependents, queueOf, Ops(ops))
    ensures forall op :: op in Ops(ops) <==> op in Ops(ops0) || Submits(ns, dependents, queueOf, op)
  {
    hide Legal, PartlyAdded, DependentsOk, TopologyOf, AllWired, DistinctNames, LevelsOk, Submission, Ops;
    ops := ops0;
    assert ns[..0] == [];
    for i := 0 to |ns|
      invariant Legal(TopologyOf(nodes, queueOf), ops) && Ops(ops0) <= Ops(ops)
      invariant PartlyAdded(nodes, levels, lvl, ns[..i], Ops(ops))
      invariant lvl == 0 ==> AllWired(TopologyOf(nodes, queueOf), Ops(ops))
      invariant AllSubmitted(ns[..i], dependents, queueOf, Ops(ops))
      invariant forall op :: op in Ops(ops) <==> op in Ops(ops0) || Submits(ns[..i], dependents, queueOf, op)
    {
      hide AllSubmitted;
      OneMoreSubmits(ns, i, dependents, queueOf);
      NotYet(ns, i);
      OneMoreSubmitted(ns, i, dependents, queueOf, Ops(ops));
      ops := SubmitNode(nodes, levels, lvl, ns[..i], ns[i], dependents, queueOf, ops);
    }
    assert ns[..|ns|] == ns;
  }

  lemma WiredStays(t: Topology, issued: set<Op>, more: set<Op>)
    requires AllWired(t, issued) && issued <= more
    ensures AllWired(t, more)
  {}

  // ---- The whole submission ----

  lemma LevelBelow(nodes: seq<Node>, levels: map<string, nat>, queueOf: string -> string, d: string, p: string)
    requires LevelsOk(nodes, levels) && (d, p) in TopologyOf(nodes, queueOf).edges
    ensures d in levels && p in levels && levels[d] < levels[p]
  {
    var n, x :| n in nodes && x in n.deps && (x, n.name) == (d, p);
  }

  lemma NodeNamed(nodes: seq<Node>, queueOf: string -> string, d: string, p: string) returns (child: Node, parent: Node)
    requires KnownDeps(nodes) && (d, p) in TopologyOf(nodes, queueOf).edges
    ensures child in nodes && child.name == d && parent in nodes && parent.name == p
  {
    var n, x :| n in nodes && x in n.deps && (x, n.name) == (d, p);
    parent := n;
    child :| child in nodes && child.name == d;
  }

  /** The nodes above the level, and so all dependents of the level, exist. */
  lemma ParentsExist(nodes: seq<Node>, levels: map<string, nat>, queueOf: string -> string, issued: set<Op>, lvl: nat)
    requires KnownDeps(nodes) && LevelsOk(nodes, levels) && AddedFrom(nodes, levels, issued, lvl + 1)
    ensures forall d, p :: (d, p) in TopologyOf(nodes, queueOf).edges && d in levels && levels[d] >= lvl ==> Added(issued, p)
    ensures lvl == 0 ==> forall e :: e in TopologyOf(nodes, queueOf).edges ==> Added(issued, e.1)
  {
    hide KnownDeps, LevelsOk, TopologyOf;
    forall d, p | (d, p) in TopologyOf(nodes, queueOf).edges && d in levels && levels[d] >= lvl ensures Added(issued, p) {
      LevelBelow(nodes, levels, queueOf, d, p);
      var child, parent := NodeNamed(nodes, queueOf, d, p);
    }
    forall e | lvl == 0 && e in TopologyOf(nodes, queueOf).edges ensures Added(issued, e.1) {
      assert e == (e.0, e.1);
      LevelBelow(nodes, levels, queueOf, e.0, e.1);
    }
  }

  /** With the leaves preset, every edge of the graph is wired. */
  lemma AllAreWired(nodes: seq<Node>, levels: map<string, nat>, queueOf: string -> string, issued: set<Op>, ns: seq<Node>)
    requires KnownDeps(nodes) && LevelsOk(nodes, levels) && SettledFrom(TopologyOf(nodes, queueOf), levels, issued, 1)
    requires forall n :: n in ns <==> n in nodes && n.name in levels && levels[n.name] == 0
    requires forall n, p :: n in ns && (n.name, p) in TopologyOf(nodes, queueOf).edges ==> Wired(issued, n.name, p)
    ensures AllWired(TopologyOf(nodes, queueOf), issued)
  {
    var t := TopologyOf(nodes, queueOf);
    hide KnownDeps, LevelsOk, TopologyOf;
    forall e | e in t.edges ensures Wired(issued, e.0, e.1) {
      assert e == (e.0, e.1);
      LevelBelow(nodes, levels, queueOf, e.0, e.1);
      var child, parent := NodeNamed(nodes, queueOf, e.0, e.1);
      if levels[e.0] == 0 {
        assert child in ns;
      } else {
        assert Settled(issued, e.0, e.1);
      }
    }
  }

  lemma PartlyFromAdded(nodes: seq<Node>, levels: map<string, nat>, lvl: nat, before: set<Op>, after: set<Op>)
    requires AddedFrom(nodes, levels, before, lvl + 1) && OnlyWired(before, after)
    ensures PartlyAdded(nodes, levels, lvl, [], after)
  {
    WiringAddsNothing(before, after);
  }

  lemma AddedFromPartly(nodes: seq<Node>, levels: map<string, nat>, lvl: nat, ns: seq<Node>, before: set<Op>, after: set<Op>)
    requires PartlyAdded(nodes, levels, lvl, ns, before) && OnlyWired(before, after)
    requires forall n :: n in ns <==> n in nodes && n.name in levels && levels[n.name] == lvl
    ensures AddedFrom(nodes, levels, after, lvl)
  {
    WiringAddsNothing(before, after);
  }

  /** An edge out of the level is settled by its wiring calls, or by the submission of a leaf that needs none. */
  lemma LevelSettled(nodes: seq<Node>, levels: map<string, nat>, lvl: nat, ns: seq<Node>, dependents: map<string, seq<string>>,
                     queueOf: string -> string, issued: set<Op>)
    requires KnownDeps(nodes) && LevelsOk(nodes, levels) && DependentsOk(TopologyOf(nodes, queueOf), dependents)
    requires forall n :: n in ns <==> n in nodes && n.name in levels && levels[n.name] == lvl
    requires SettledFrom(TopologyOf(nodes, queueOf), levels, issued, lvl + 1)
    requires lvl == 0 ==> AllWired(TopologyOf(nodes, queueOf), issued)
    requires AllSubmitted(ns, dependents, queueOf, issued)
    requires forall n, p :: n in ns && (n.name, p) in TopologyOf(nodes, queueOf).edges && ShouldRegister(n, dependents, queueOf) ==> Settled(issued, n.name, p)
    ensures SettledFrom(TopologyOf(nodes, queueOf), levels, issued, lvl)
  {
    var t := TopologyOf(nodes, queueOf);
    hide KnownDeps, TopologyOf;
    forall d, p | (d, p) in t.edges && d in levels && levels[d] >= lvl ensures Settled(issued, d, p) {
      if levels[d] == lvl {
        var n, parent := NodeNamed(nodes, queueOf, d, p);
        assert n in ns && p in dependents[d];
        if !ShouldRegister(n, dependents, queueOf) {
          assert dependents[d] == [p];
          assert Submission(n, dependents, queueOf) == AddJob(d, Some(p));
          assert (d, p).0 == d;
        }
      }
    }
  }

  lemma NodesOfLevel(nodes: seq<Node>, levels: map<string, nat>, queueOf: string -> string, dependents: map<string, seq<string>>)
    requires DependentsOk(TopologyOf(nodes, queueOf), dependents)
    ensures forall n :: n in nodes ==> n.name in dependents && n.name in TopologyOf(nodes, queueOf).names
    ensures TopologyOf(nodes, queueOf).queueOf == queueOf
  {}

  lemma AddedOne(nodes: seq<Node>, levels: map<string, nat>, lvl: nat, ns: seq<Node>, issued: set<Op>)
    requires PartlyAdded(nodes, levels, lvl, ns, issued) && forall n :: n in ns ==> n in nodes
    ensures forall n :: n in ns ==> Added(issued, n.name)
  {}

  lemma NoWiring(s: set<Op>)
    ensures OnlyWired(s, s)
  {}

  lemma ParentsStay(nodes: seq<Node>, levels: map<string, nat>, queueOf: string -> string, lvl: nat, ns: seq<Node>, before: set<Op>, after: set<Op>)
    requires KnownDeps(nodes) && LevelsOk(nodes, levels) && AddedFrom(nodes, levels, before, lvl + 1) && before <= after
    requires forall n :: n in ns ==> n in nodes && n.name in levels && levels[n.name] == lvl
    ensures forall n, p :: n in ns && (n.name, p) in TopologyOf(nodes, queueOf).edges ==> Added(after, p)
  {
    ParentsExist(nodes, levels, queueOf, before, lvl);
    forall n, p | n in ns && (n.name, p) in TopologyOf(nodes, queueOf).edges ensures Added(after, p) {
      StillAdded(before, after, p);
    }
  }

  /** What the steps of one level add to the calls. */
  ghost predicate LevelCall(t: Topology, lvl: nat, ns: seq<Node>, dependents: map<string, seq<string>>, queueOf: string -> string, op: Op) {
    || (lvl == 0 && op.SaddDep? && (op.child, op.parent) in t.edges && Named(ns, op.child))
    || Submits(ns, dependents, queueOf, op)
    || (WiringCall(t, op) && Registers(ns, dependents, queueOf, op.child))
  }

  lemma OneListed(nodes: seq<Node>, t: Topology, dependents: map<string, seq<string>>, d: string, p: string)
    requires DependentsOk(t, dependents) && CountsOk(nodes, dependents) && d in dependents
    ensures DagDependents.Uses(nodes, d) == 1 && (d, p) in t.edges <==> dependents[d] == [p]
  {
    if |dependents[d]| == 1 { assert dependents[d][0] in dependents[d]; }
  }

  lemma SubmissionCalled(nodes: seq<Node>, dependents: map<string, seq<string>>, queueOf: string -> string, n: Node, op: Op)
    requires DistinctNames(nodes) && n in nodes && n.name in dependents && AddsNode(op) && op.node == n.name
    requires DependentsOk(TopologyOf(nodes, queueOf), dependents) && CountsOk(nodes, dependents)
    ensures Called(nodes, TopologyOf(nodes, queueOf), op) <==> op == Submission(n, dependents, queueOf)
  {
    var t, ps := TopologyOf(nodes, queueOf), dependents[n.name];
    LeafHasNoDeps(nodes, queueOf, n);
    hide DependentsOk, CountsOk, IsLeaf;
    assert n.name in t.names;
    forall p
      ensures LinkedByAdding(nodes, t, n.name, p) <==> n.deps == [] && TreeParent(n, dependents, queueOf) == Some(p)
    {
      OneListed(nodes, t, dependents, n.name, p);
      if |ps| == 1 { assert ps == [ps[0]]; }
    }
  }

  lemma WiringCalled(nodes: seq<Node>, dependents: map<string, seq<string>>, queueOf: string -> string, n: Node, op: Op)
    requires DistinctNames(nodes) && n in nodes && n.name in dependents && !AddsNode(op) && op.child == n.name
    requires DependentsOk(TopologyOf(nodes, queueOf), dependents) && CountsOk(nodes, dependents)
    ensures Called(nodes, TopologyOf(nodes, queueOf), op) <==>
              || (n.deps == [] && op.SaddDep? && (op.child, op.parent) in TopologyOf(nodes, queueOf).edges)
              || (WiringCall(TopologyOf(nodes, queueOf), op) && ShouldRegister(n, dependents, queueOf))
  {
    var t, ps, p := TopologyOf(nodes, queueOf), dependents[n.name], op.parent;
    LeafHasNoDeps(nodes, queueOf, n);
    OneListed(nodes, t, dependents, n.name, p);
    assert (n.name, p) in t.edges <==> p in ps;
    assert SameQueue(t, n.name, p) <==> queueOf(n.name) == queueOf(p);
    hide DependentsOk, CountsOk, IsLeaf, TopologyOf;
    if |ps| == 1 { assert ps == [ps[0]]; }
  }

  /** The level adds exactly the calls about its own nodes. */
  lemma LevelCalled(nodes: seq<Node>, levels: map<string, nat>, lvl: nat, ns: seq<Node>, dependents: map<string, seq<string>>,
                    queueOf: string -> string, op: Op)
    requires DistinctNames(nodes) && KnownDeps(nodes) && LevelsOk(nodes, levels)
    requires DependentsOk(TopologyOf(nodes, queueOf), dependents) && CountsOk(nodes, dependents)
    requires forall n :: n in ns <==> n in nodes && n.name in levels && levels[n.name] == lvl
    ensures LevelCall(TopologyOf(nodes, queueOf), lvl, ns, dependents, queueOf, op) <==>
              Called(nodes, TopologyOf(nodes, queueOf), op) && About(op) in levels && levels[About(op)] == lvl
  {
    if Named(ns, About(op)) {
      var n :| n in ns && n.name == About(op);
      LevelCalledAbout(nodes, levels, lvl, ns, dependents, queueOf, n, op);
    } else {
      if Called(nodes, TopologyOf(nodes, queueOf), op) { CalledAboutNode(nodes, queueOf, op); }
      hide Called, DistinctNames, KnownDeps, LevelsOk, DependentsOk, CountsOk, TopologyOf, ShouldRegister;
    }
  }

  lemma LevelCalledAbout(nodes: seq<Node>, levels: map<string, nat>, lvl: nat, ns: seq<Node>, dependents: map<string, seq<string>>,
                         queueOf: string -> string, n: Node, op: Op)
    requires DistinctNames(nodes) && LevelsOk(nodes, levels)
    requires DependentsOk(TopologyOf(nodes, queueOf), dependents) && CountsOk(nodes, dependents)
    requires forall m :: m in ns <==> m in nodes && m.name in levels && levels[m.name] == lvl
    requires n in ns && n.name == About(op)
    ensures LevelCall(TopologyOf(nodes, queueOf), lvl, ns, dependents, queueOf, op) <==> Called(nodes, TopologyOf(nodes, queueOf), op)
  {
    NodesOfLevel(nodes, levels, queueOf, dependents);
    assert forall m :: m in ns && m.name == n.name ==> m == n;
    assert n.deps == [] <==> lvl == 0;
    hide DistinctNames, LevelsOk, DependentsOk, CountsOk, TopologyOf, Called, ShouldRegister, TreeParent;
    if AddsNode(op) {
      SubmissionCalled(nodes, dependents, queueOf, n, op);
    } else {
      WiringCalled(nodes, dependents, queueOf, n, op);
    }
  }

  lemma CalledAboutNode(nodes: seq<Node>, queueOf: string -> string, op: Op)
    requires KnownDeps(nodes) && Called(nodes, TopologyOf(nodes, queueOf), op)
    ensures Named(nodes, About(op))
  {
    var t := TopologyOf(nodes, queueOf);
    if AddsNode(op) {
      assert op.node in t.names;
    } else {
      var child, parent := NodeNamed(nodes, queueOf, op.child, op.parent);
    }
  }

  lemma CalledDown(nodes: seq<Node>, levels: map<string, nat>, lvl: nat, ns: seq<Node>, dependents: map<string, seq<string>>,
                   queueOf: string -> string, before: set<Op>, after: set<Op>)
    requires DistinctNames(nodes) && KnownDeps(nodes) && LevelsOk(nodes, levels)
    requires DependentsOk(TopologyOf(nodes, queueOf), dependents) && CountsOk(nodes, dependents)
    requires forall n :: n in ns <==> n in nodes && n.name in levels && levels[n.name] == lvl
    requires CalledFrom(nodes, TopologyOf(nodes, queueOf), levels, before, lvl + 1)
    requires forall op :: op in after <==> op in before || LevelCall(TopologyOf(nodes, queueOf), lvl, ns, dependents, queueOf, op)
    ensures CalledFrom(nodes, TopologyOf(nodes, queueOf), levels, after, lvl)
  {
    hide DistinctNames, KnownDeps, LevelsOk, DependentsOk, CountsOk, TopologyOf, LevelCall, Called;
    forall op
      ensures op in after <==> Called(nodes, TopologyOf(nodes, queueOf), op) && About(op) in levels && levels[About(op)] >= lvl
    {
      LevelCalled(nodes, levels, lvl, ns, dependents, queueOf, op);
    }
  }

  /** All calls for one level: the leaves are first put into every deps SET, then the nodes are added, then
      the edges to the levels above are wired.
  */
  method AddLevel(ghost nodes: seq<Node>, ghost levels: map<string, nat>, lvl: nat, ns: seq<Node>,
                  dependents: map<string, seq<string>>, queueOf: string -> string, ops0: seq<Op>)
    returns (ops: seq<Op>)
    requires DistinctNames(nodes) && KnownDeps(nodes) && LevelsOk(nodes, levels) && DependentsOk(TopologyOf(nodes, queueOf), dependents)
    requires CountsOk(nodes, dependents) && CalledFrom(nodes, TopologyOf(nodes, queueOf), levels, Ops(ops0), lvl + 1)
    requires DistinctNames(ns) && forall n :: n in ns <==> n in nodes && n.name in levels && levels[n.name] == lvl
    requires Legal(TopologyOf(nodes, queueOf), ops0) && AddedFrom(nodes, levels, Ops(ops0), lvl + 1)
    requires SettledFrom(TopologyOf(nodes, queueOf), levels, Ops(ops0), lvl + 1)
    ensures Legal(TopologyOf(nodes, queueOf), ops) && AddedFrom(nodes, levels, Ops(ops), lvl)
    ensures SettledFrom(TopologyOf(nodes, queueOf), levels, Ops(ops), lvl)
    ensures CalledFrom(nodes, TopologyOf(nodes, queueOf), levels, Ops(ops), lvl)
  {
    ghost var t := TopologyOf(nodes, queueOf);
    NodesOfLevel(nodes, levels, queueOf, dependents);
    hide DistinctNames, KnownDeps, LevelsOk, TopologyOf, DependentsOk, Legal, AddedFrom, PartlyAdded, SettledFrom, AllWired, OnlyWired,
         Settled, ShouldRegister, Submission, AllSubmitted, CountsOk, CalledFrom, WiringCall, Registers, Submits, Named;
    ops := ops0;
    NoWiring(Ops(ops0));
    if lvl == 0 {
      ParentsExist(nodes, levels, queueOf, Ops(ops0), lvl);
      ops := PresetLeaves(t, ns, dependents, queueOf, ops);
      WiredGrows(Ops(ops0), Ops(ops));
      SettledStays(t, levels, Ops(ops0), Ops(ops), lvl + 1);
      AllAreWired(nodes, levels, queueOf, Ops(ops), ns);
    }
    ghost var preset := Ops(ops);
    WiredGrows(Ops(ops0), preset);
    PartlyFromAdded(nodes, levels, lvl, Ops(ops0), preset);
    ops := SubmitLevel(nodes, levels, lvl, ns, dependents, queueOf, ops);
    ghost var submitted := Ops(ops);
    AddedOne(nodes, levels, lvl, ns, submitted);
    ParentsStay(nodes, levels, queueOf, lvl, ns, Ops(ops0), submitted);
    ops := WireLevel(t, ns, dependents, queueOf, ops);
    WiredGrows(submitted, Ops(ops));
    AddedFromPartly(nodes, levels, lvl, ns, submitted, Ops(ops));
    SettledStays(t, levels, Ops(ops0), Ops(ops), lvl + 1);
    if lvl == 0 { WiredStays(t, preset, Ops(ops)); }
    SubmittedStays(ns, dependents, queueOf, submitted, Ops(ops));
    LevelSettled(nodes, levels, lvl, ns, dependents, queueOf, Ops(ops));
    CalledDown(nodes, levels, lvl, ns, dependents, queueOf, Ops(ops0), Ops(ops));
  }

  lemma SubmittedStays(ns: seq<Node>, dependents: map<string, seq<string>>, queueOf: string -> string, issued: set<Op>, more: set<Op>)
    requires AllSubmitted(ns, dependents, queueOf, issued) && issued <= more
    ensures AllSubmitted(ns, dependents, queueOf, more)
  {}

  lemma WiredGrows(before: set<Op>, after: set<Op>)
    requires OnlyWired(before, after)
    ensures before <= after
  {}

  lemma SameNodes(nodes: seq<Node>, sorted: seq<Node>)
    requires multiset(nodes) == multiset(sorted)
    ensures forall n :: n in nodes <==> n in sorted
  {
    forall n ensures n in nodes <==> n in sorted {
      assert n in nodes <==> n in multiset(nodes);
      assert n in sorted <==> n in multiset(sorted);
    }
  }

  lemma NothingAdded(nodes: seq<Node>, levels: map<string, nat>, queueOf: string -> string, maxLevel: nat)
    requires LevelsOk(nodes, levels) && forall n :: n in nodes ==> levels[n.name] <= maxLevel
    ensures AddedFrom(nodes, levels, Ops([]), maxLevel + 1) && Legal(TopologyOf(nodes, queueOf), [])
    ensures SettledFrom(TopologyOf(nodes, queueOf), levels, Ops([]), maxLevel + 1)
    ensures KnownDeps(nodes) ==> CalledFrom(nodes, TopologyOf(nodes, queueOf), levels, Ops([]), maxLevel + 1)
  {
    if KnownDeps(nodes) {
      forall op | Called(nodes, TopologyOf(nodes, queueOf), op) ensures About(op) in levels && levels[About(op)] <= maxLevel {
        CalledAboutNode(nodes, queueOf, op);
      }
    }
    forall d, p | (d, p) in TopologyOf(nodes, queueOf).edges ensures d in levels && levels[d] <= maxLevel {
      var n, x :| n in nodes && x in n.deps && (x, n.name) == (d, p);
    }
  }

  lemma SubmissionOver(nodes: seq<Node>, levels: map<string, nat>, queueOf: string -> string, ops: seq<Op>)
    requires LevelsOk(nodes, levels) && Legal(TopologyOf(nodes, queueOf), ops) && AddedFrom(nodes, levels, Ops(ops), 0)
    requires SettledFrom(TopologyOf(nodes, queueOf), levels, Ops(ops), 0)
    ensures WellOrdered(TopologyOf(nodes, queueOf), ops)
  {
    var t := TopologyOf(nodes, queueOf);
    forall e | e in t.edges
      ensures AddJob(e.0, Some(e.1)) in Ops(ops) || RegisterParent(e.0, e.1) in Ops(ops) || NotifyIfCompleted(e.0, e.1) in Ops(ops)
    {
      assert e == (e.0, e.1);
      LevelBelow(nodes, levels, queueOf, e.0, e.1);
      assert Settled(Ops(ops), e.0, e.1);
    }
  }

  lemma CalledOver(nodes: seq<Node>, levels: map<string, nat>, queueOf: string -> string, ops: seq<Op>)
    requires KnownDeps(nodes) && LevelsOk(nodes, levels) && CalledFrom(nodes, TopologyOf(nodes, queueOf), levels, Ops(ops), 0)
    ensures forall op :: op in ops <==> Called(nodes, TopologyOf(nodes, queueOf), op)
  {
    hide KnownDeps, Called, TopologyOf;
    forall op ensures op in ops <==> Called(nodes, TopologyOf(nodes, queueOf), op) {
      assert op in ops <==> op in Ops(ops);
      if Called(nodes, TopologyOf(nodes, queueOf), op) { CalledAboutNode(nodes, queueOf, op); }
    }
  }

  lemma SortedNames(nodes: seq<Node>, sorted: seq<Node>, queueOf: string -> string, names: seq<string>)
    requires DepsFirst(sorted) && DistinctNames(sorted) && forall n :: n in nodes <==> n in sorted
    requires |names| == |sorted| && forall i :: 0 <= i < |names| ==> names[i] == sorted[i].name
    ensures DagSafety.Sorted(TopologyOf(nodes, queueOf), names)
  {
    var t := TopologyOf(nodes, queueOf);
    forall n | n in t.names ensures n in names {
      var m :| m in nodes && m.name == n;
      var i :| 0 <= i < |sorted| && sorted[i] == m;
      assert names[i] == n;
    }
    forall n | n in names ensures n in t.names {
      var i :| 0 <= i < |names| && names[i] == n;
      assert sorted[i] in nodes;
    }
    forall j, d | 0 <= j < |names| && (d, names[j]) in t.edges ensures d in names[..j] {
      var m, x :| m in nodes && x in m.deps && (x, m.name) == (d, names[j]);
      assert m == sorted[j];
      var k :| 0 <= k < j && sorted[k].name == d;
      assert names[..j][k] == d;
    }
  }

  /** addDAG: refuses exactly the invalid graphs; otherwise makes its calls in a well-ordered sequence that
      adds every node and settles every edge. `names` witnesses a dependency order.
  */
  method AddDag(nodes: seq<Node>, queueOf: string -> string) returns (r: Result<seq<Op>, GraphError>, ghost names: seq<string>)
    ensures r.Ok? <==> ValidDag(nodes)
    ensures r.Err? ==> DagCycle.Explains(nodes, r.error)
    ensures r.Ok? ==> WellOrdered(TopologyOf(nodes, queueOf), r.value)
    ensures r.Ok? ==> forall op :: op in r.value <==> Called(nodes, TopologyOf(nodes, queueOf), op)
    ensures r.Ok? ==> DagSafety.Sorted(TopologyOf(nodes, queueOf), names)
  {
    hide Called;
    names := [];
    var validated := DagCycle.ValidateDag(nodes);
    if validated.Err? {
      return Err(validated.error), [];
    }
    var topo := DagCycle.TopoSort(nodes);
    var sorted := topo.value;
    SameNodes(nodes, sorted);
    names := seq(|sorted|, i requires 0 <= i < |sorted| => sorted[i].name);
    SortedNames(nodes, sorted, queueOf, names);
    var ops := Submit(nodes, sorted, queueOf);
    r := Ok(ops);
  }

  /** The levels from the highest down to the leaves. */
  method Submit(nodes: seq<Node>, sorted: seq<Node>, queueOf: string -> string) returns (ops: seq<Op>)
    requires ValidDag(nodes) && DistinctNames(sorted) && DepsFirst(sorted) && forall n :: n in nodes <==> n in sorted
    ensures WellOrdered(TopologyOf(nodes, queueOf), ops)
    ensures forall op :: op in ops <==> Called(nodes, TopologyOf(nodes, queueOf), op)
  {
    hide CountsOk, CalledFrom, Called;
    hide Acyclic, Legal, AddedFrom, SettledFrom, DependentsOk, TopologyOf, WellOrdered;
    var dependents := Dependents(nodes, queueOf);
    var levels, maxLevel := Levels(sorted);
    NothingAdded(nodes, levels, queueOf, maxLevel);
    ops := [];
    var lvl := maxLevel + 1;
    while lvl > 0
      invariant Legal(TopologyOf(nodes, queueOf), ops) && AddedFrom(nodes, levels, Ops(ops), lvl)
      invariant SettledFrom(TopologyOf(nodes, queueOf), levels, Ops(ops), lvl)
      invariant CalledFrom(nodes, TopologyOf(nodes, queueOf), levels, Ops(ops), lvl)
    {
      lvl := lvl - 1;
      var ns := AtLevel(sorted, levels, lvl);
      ops := AddLevel(nodes, levels, lvl, ns, dependents, queueOf, ops);
    }
    SubmissionOver(nodes, levels, queueOf, ops);
    CalledOver(nodes, levels, queueOf, ops);
  }
}
