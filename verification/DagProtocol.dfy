/** The production addDAG protocol: a producer wires jobs and dependencies through a series of atomic
    server calls while workers complete jobs and deliver parent notifications at any moment in between.
 */
module DagProtocol {
  import opened Wrappers

  /** `(d, n)` in `edges`: node d must complete before node n runs. */
  datatype Topology = Topology(names: set<string>, edges: set<(string, string)>, queueOf: string -> string)

  ghost predicate IsLeaf(t: Topology, x: string) {
    x in t.names && forall e :: e in t.edges ==> e.1 != x
  }

  predicate SameQueue(t: Topology, a: string, b: string) {
    t.queueOf(a) == t.queueOf(b)
  }

  // ---- Server state ----

  datatype JobState = WaitingChildren | Runnable | Completed

  /** Keys of the server: job states, the members of each parent's deps SET, its counted and parked
      completions, each child's parents SET and tree parent, and the queued cross-queue notifications.
      Pairs in `deps`, `done` and `early` are (parent, child); in the others (child, parent).
  */
  datatype Server = Server(
    state: map<string, JobState>,
    deps: set<(string, string)>, done: set<(string, string)>, early: set<(string, string)>,
    parents: set<(string, string)>, tree: set<(string, string)>, owed: set<(string, string)>)

  ghost function Members(pairs: set<(string, string)>, p: string): set<string> {
    set e | e in pairs && e.0 == p :: e.1
  }

  /** SCARD of the deps SET minus the completed count. */
  ghost function Remaining(s: Server, p: string): int {
    |Members(s.deps, p)| - |Members(s.done, p)|
  }

  ghost function ReleaseIfReady(s: Server, p: string): Server {
    if Remaining(s, p) <= 0 && p in s.state && s.state[p] == WaitingChildren
    then s.(state := s.state[p := Runnable])
    else s
  }

  /** Counts the completion of child `d` in parent `p` once, or parks it if the child is not registered. */
  ghost function CompleteParentDependency(s: Server, p: string, d: string): Server {
    if p !in s.state then s
    else if (p, d) !in s.deps then s.(early := s.early + {(p, d)})
    else
      var arrived := set e | e in s.early && e.0 == p && e in s.deps;
      var counted := s.(early := s.early - arrived, done := s.done + arrived + {(p, d)});
      if counted.done == s.done then counted else ReleaseIfReady(counted, p)
  }

  // ---- The producer's calls ----

  datatype Op =
    | AddFlow(node: string)
    | AddJob(node: string, treeParent: Option<string>)
    | SaddDep(child: string, parent: string)
    | SaddParents(child: string, parent: string)
    | RegisterParent(child: string, parent: string)
    | ReadState(child: string, parent: string)
    | NotifyIfCompleted(child: string, parent: string)

  /** The server, and what the producer remembers of the states it read. */
  datatype System = System(server: Server, seen: set<(string, string)>)

  ghost predicate IsCompleted(s: Server, d: string) {
    d in s.state && s.state[d] == Completed
  }

  ghost function Apply(y: System, op: Op): System {
    var s := y.server;
    match op
    case AddFlow(n) => y.(server := s.(state := s.state[n := WaitingChildren]))
    case AddJob(n, None) => y.(server := s.(state := s.state[n := Runnable]))
    case AddJob(n, Some(p)) =>
      y.(server := s.(state := s.state[n := Runnable], tree := s.tree + {(n, p)}, deps := s.deps + {(p, n)}))
    case SaddDep(d, p) => y.(server := s.(deps := s.deps + {(p, d)}))
    case SaddParents(d, p) => y.(server := s.(parents := s.parents + {(d, p)}))
    case RegisterParent(d, p) =>
      var wired := s.(parents := s.parents + {(d, p)}, deps := s.deps + {(p, d)});
      y.(server := if IsCompleted(s, d) then CompleteParentDependency(wired, p, d) else wired)
    case ReadState(d, p) => if IsCompleted(s, d) then y.(seen := y.seen + {(d, p)}) else y
    case NotifyIfCompleted(d, p) =>
      if (d, p) in y.seen then y.(server := CompleteParentDependency(s, p, d)) else y
  }

  // ---- The workers' steps ----

  /** Notifies the listed parents of `d`: its own queue's at once, the others through a queued notification. */
  ghost function NotifyParents(t: Topology, s: Server, d: string, order: seq<string>): Server
    decreases |order|
  {
    if order == [] then s
    else
      var p := order[0];
      var s' := if SameQueue(t, d, p) then CompleteParentDependency(s, p, d) else s.(owed := s.owed + {(d, p)});
      NotifyParents(t, s', d, order[1..])
  }

  /** `order` lists the tree parent and the parents SET of `d`, in any order. */
  ghost predicate ListsParents(s: Server, d: string, order: seq<string>) {
    forall p :: p in order <==> (d, p) in s.tree || (d, p) in s.parents
  }

  /** A worker completes a runnable job: one server call. */
  ghost predicate CompleteStep(t: Topology, y: System, y': System, d: string, order: seq<string>) {
    && d in y.server.state && y.server.state[d] == Runnable
    && ListsParents(y.server, d, order)
    && y' == y.(server := NotifyParents(t, y.server.(state := y.server.state[d := Completed]), d, order))
  }

  /** A queued notification is delivered. */
  ghost predicate DeliverStep(y: System, y': System, d: string, p: string) {
    && (d, p) in y.server.owed
    && y' == y.(server := CompleteParentDependency(y.server.(owed := y.server.owed - {(d, p)}), p, d))
  }

  // ---- The order of the producer's calls ----

  ghost predicate Added(issued: set<Op>, n: string) {
    exists op :: op in issued && (op.AddFlow? || op.AddJob?) && op.node == n
  }

  predicate AddsNode(op: Op) {
    op.AddFlow? || op.AddJob?
  }

  ghost predicate LeafAdded(issued: set<Op>) {
    exists op :: op in issued && op.AddJob?
  }

  /** The child is a member of the parent's deps SET. */
  ghost predicate Wired(issued: set<Op>, d: string, p: string) {
    SaddDep(d, p) in issued || RegisterParent(d, p) in issued
  }

  /** When the producer makes a call, given the calls it has made. No leaf exists before every dependency of
      the graph is a member of its parent's deps SET.
  */
  ghost predicate Enabled(t: Topology, issued: set<Op>, op: Op) {
    match op
    case AddFlow(n) => n in t.names && !IsLeaf(t, n) && !Added(issued, n) && !LeafAdded(issued)
    case AddJob(n, treeParent) =>
      && IsLeaf(t, n) && !Added(issued, n)
      && (forall x :: x in t.names && !IsLeaf(t, x) ==> Added(issued, x))
      && (forall e :: e in t.edges ==> Wired(issued, e.0, e.1))
      && (treeParent.Some? ==> (n, treeParent.value) in t.edges && SameQueue(t, n, treeParent.value))
    case SaddDep(d, p) => (d, p) in t.edges && Added(issued, p)
    case SaddParents(d, p) => (d, p) in t.edges && !SameQueue(t, d, p) && Added(issued, d) && Wired(issued, d, p)
    case RegisterParent(d, p) => (d, p) in t.edges && SameQueue(t, d, p) && Added(issued, d) && Added(issued, p)
    case ReadState(d, p) => SaddParents(d, p) in issued
    case NotifyIfCompleted(d, p) => ReadState(d, p) in issued
  }

  /** The submission is finished: every node exists and every edge is wired in one of the three ways. */
  ghost predicate Finished(t: Topology, issued: set<Op>) {
    && (forall n :: n in t.names ==> Added(issued, n))
    && (forall e :: e in t.edges ==>
          || AddJob(e.0, Some(e.1)) in issued
          || RegisterParent(e.0, e.1) in issued
          || NotifyIfCompleted(e.0, e.1) in issued)
  }

  ghost function Ops(ops: seq<Op>): set<Op> {
    set op | op in ops
  }

  /** A whole submission: every call is enabled when it is made. */
  ghost predicate WellOrdered(t: Topology, ops: seq<Op>) {
    && (forall i :: 0 <= i < |ops| ==> Enabled(t, Ops(ops[..i]), ops[i]))
    && Finished(t, Ops(ops))
  }

  lemma IssuedNow(issued: set<Op>, op: Op)
    ensures forall n :: Added(issued + {op}, n) <==> Added(issued, n) || ((op.AddFlow? || op.AddJob?) && op.node == n)
    ensures LeafAdded(issued + {op}) <==> LeafAdded(issued) || op.AddJob?
    ensures forall d, p :: Wired(issued + {op}, d, p) <==> Wired(issued, d, p) || op == SaddDep(d, p) || op == RegisterParent(d, p)
  {
    forall n | (op.AddFlow? || op.AddJob?) && op.node == n ensures Added(issued + {op}, n) { assert op in issued + {op}; }
    forall n | Added(issued, n) ensures Added(issued + {op}, n) {
      var o :| o in issued && (o.AddFlow? || o.AddJob?) && o.node == n;
      assert o in issued + {op};
    }
    if LeafAdded(issued) {
      var o :| o in issued && o.AddJob?;
      assert o in issued + {op};
    }
    assert op.AddJob? ==> op in issued + {op};
  }

  // ---- Runs ----

  /** One atomic step: the producer's next call, a completion, or a delivery. */
  ghost predicate Next(t: Topology, ops: seq<Op>, pc: nat, y: System, pc': nat, y': System) {
    || (pc < |ops| && pc' == pc + 1 && y' == Apply(y, ops[pc]))
    || (pc' == pc && exists d, order :: CompleteStep(t, y, y', d, order))
    || (pc' == pc && exists d, p :: DeliverStep(y, y', d, p))
  }

  const Empty := System(Server(map[], {}, {}, {}, {}, {}, {}), {})

  /** A run from the empty server: position in the submission and system after each step. */
  ghost predicate IsRun(t: Topology, ops: seq<Op>, run: seq<(nat, System)>) {
    && run != [] && run[0] == (0, Empty)
    && forall i :: 0 <= i < |run| - 1 ==> Next(t, ops, run[i].0, run[i].1, run[i + 1].0, run[i + 1].1)
  }
}
