/** Every interleaving of a well-ordered DAG submission with workers keeps the dependency order and
    loses no completion.
 */
module DagSafety {
  import opened DagProtocol
  import opened Wrappers

  // ---- The invariant ----

  /** Job states follow the submission; nothing runs before a leaf exists. */
  ghost predicate StatesOk(t: Topology, issued: set<Op>, s: Server) {
    && (forall n :: n in s.state <==> Added(issued, n))
    && (forall n :: n in s.state ==> n in t.names)
    && (forall n :: n in s.state && IsLeaf(t, n) ==> s.state[n] != WaitingChildren)
    && (!LeafAdded(issued) ==> forall n :: n in s.state ==> s.state[n] == WaitingChildren)
  }

  /** The deps SETs hold exactly the wired edges, all of them once a leaf exists. */
  ghost predicate DepsOk(t: Topology, issued: set<Op>, s: Server) {
    && (forall d, p :: (p, d) in s.deps <==> Wired(issued, d, p) || AddJob(d, Some(p)) in issued)
    && (forall d, p :: (p, d) in s.deps ==> (d, p) in t.edges && p in s.state)
    && (LeafAdded(issued) ==> forall d, p :: (d, p) in t.edges ==> (p, d) in s.deps)
  }

  /** Counted completions are real, and a waiting node still misses one. */
  ghost predicate DoneOk(t: Topology, s: Server) {
    && s.early == {} && s.done <= s.deps
    && (forall d, p :: (p, d) in s.done ==> IsCompleted(s, d))
    && (forall n :: n in s.state && s.state[n] == WaitingChildren ==> exists d :: (d, n) in t.edges && (n, d) !in s.done)
    && (forall n, d :: n in s.state && s.state[n] != WaitingChildren && (d, n) in t.edges ==> (n, d) in s.done)
  }

  /** Parent links, queued notifications and remembered reads follow the submission. */
  ghost predicate LinksOk(t: Topology, issued: set<Op>, y: System) {
    var s := y.server;
    && (forall d, p :: (d, p) in s.parents <==> SaddParents(d, p) in issued || RegisterParent(d, p) in issued)
    && (forall d, p :: (d, p) in s.tree <==> AddJob(d, Some(p)) in issued)
    && (forall d, p :: (d, p) in s.tree || (d, p) in s.parents ==> (d, p) in t.edges)
    && (forall d, p :: (d, p) in s.tree || RegisterParent(d, p) in issued ==> SameQueue(t, d, p))
    && (forall d, p :: SaddParents(d, p) in issued ==> !SameQueue(t, d, p))
    && (forall d, p :: (d, p) in s.owed ==> (d, p) in t.edges && IsCompleted(s, d))
    && (forall d, p :: (d, p) in y.seen ==> (d, p) in t.edges && IsCompleted(s, d) && ReadState(d, p) in issued)
    && (forall d, p :: ReadState(d, p) in issued ==> SaddParents(d, p) in issued)
    && (forall d, p :: NotifyIfCompleted(d, p) in issued ==> ReadState(d, p) in issued)
  }

  /** A completion of `d` that parent `p` has not counted is still on its way: queued, or left to the
      producer, which has yet to read the state or to act on what it read.
  */
  ghost predicate OnItsWay(issued: set<Op>, y: System, d: string, p: string) {
    || (p, d) in y.server.done
    || (d, p) in y.server.owed
    || ((d, p) !in y.server.tree && (d, p) !in y.server.parents)
    || (SaddParents(d, p) in issued && ReadState(d, p) !in issued)
    || ((d, p) in y.seen && NotifyIfCompleted(d, p) !in issued)
  }

  /** No completion is lost, except those of `d` to the parents in `exempt` that are being notified. */
  ghost predicate NoneLost(issued: set<Op>, y: System, exempt: set<(string, string)>) {
    forall d, p {:trigger OnItsWay(issued, y, d, p)} ::
      IsCompleted(y.server, d) && (d, p) !in exempt ==> OnItsWay(issued, y, d, p)
  }

  ghost predicate Inv(t: Topology, issued: set<Op>, y: System, exempt: set<(string, string)>) {
    && StatesOk(t, issued, y.server) && DepsOk(t, issued, y.server) && DoneOk(t, y.server)
    && LinksOk(t, issued, y) && NoneLost(issued, y, exempt)
  }

  // ---- Counting a completion ----

  lemma SubsetOfSameSize(a: set<string>, b: set<string>)
    requires a <= b
    ensures |b| - |a| <= 0 <==> a == b
  {
    assert b == a + (b - a);
  }

  lemma MembersIff(pairs: set<(string, string)>, p: string, d: string)
    ensures d in Members(pairs, p) <==> (p, d) in pairs
  {
    if d in Members(pairs, p) {
      var e :| e in pairs && e.0 == p && e.1 == d;
      assert e == (p, d);
    }
  }

  /** The parent is released exactly when every member of its deps SET is counted. */
  lemma ReadyExactly(s: Server, p: string)
    requires s.done <= s.deps
    ensures Remaining(s, p) <= 0 <==> forall d :: (p, d) in s.deps ==> (p, d) in s.done
  {
    forall d ensures d in Members(s.deps, p) <==> (p, d) in s.deps { MembersIff(s.deps, p, d); }
    forall d ensures d in Members(s.done, p) <==> (p, d) in s.done { MembersIff(s.done, p, d); }
    SubsetOfSameSize(Members(s.done, p), Members(s.deps, p));
  }

  /** What counting does when nothing is parked: the pair is counted, and the parent released if it was the last. */
  lemma CountEffect(s: Server, p: string, d: string)
    requires s.early == {} && s.done <= s.deps && p in s.state && (p, d) in s.deps
    ensures var s' := CompleteParentDependency(s, p, d);
            var counted := s.(done := s.done + {(p, d)});
            s' == if (p, d) !in s.done && s.state[p] == WaitingChildren && (forall x :: (p, x) in s.deps ==> (p, x) in counted.done)
                  then counted.(state := s.state[p := Runnable]) else counted
  {
    var arrived := set e | e in s.early && e.0 == p && e in s.deps;
    assert arrived == {};
    var counted := s.(early := s.early - arrived, done := s.done + arrived + {(p, d)});
    assert counted == s.(done := s.done + {(p, d)});
    ReadyExactly(counted, p);
  }

  /** Counting a real completion keeps the invariant, and settles that pair. */
  lemma CountKeeps(t: Topology, issued: set<Op>, y: System, exempt: set<(string, string)>, p: string, d: string)
    requires Inv(t, issued, y, exempt) && (d, p) in t.edges && IsCompleted(y.server, d)
    ensures Inv(t, issued, y.(server := CompleteParentDependency(y.server, p, d)), exempt - {(d, p)})
  {
    hide StatesOk, DepsOk, DoneOk, LinksOk, NoneLost, IsCompleted, CompleteParentDependency;
    var y' := y.(server := CompleteParentDependency(y.server, p, d));
    CountStep(t, issued, y.server, p, d);
    CountKeepsDone(t, issued, y.server, p, d);
    CountKeepsStates(t, issued, y, y', p);
    CountKeepsLost(issued, y, y', exempt, p, d);
  }

  /** Counting touches the counted pairs and the state of the parent, which only goes from waiting to runnable. */
  lemma CountStep(t: Topology, issued: set<Op>, s: Server, p: string, d: string)
    requires StatesOk(t, issued, s) && DepsOk(t, issued, s) && DoneOk(t, s) && (d, p) in t.edges && IsCompleted(s, d)
    ensures LeafAdded(issued) && p in s.state
    ensures var s' := CompleteParentDependency(s, p, d);
      && s' == s.(done := s.done + {(p, d)}, state := s'.state)
      && (s'.state == s.state || (s.state[p] == WaitingChildren && s'.state == s.state[p := Runnable]))
      && forall x :: IsCompleted(s', x) <==> IsCompleted(s, x)
  {
    assert LeafAdded(issued) && (p, d) in s.deps;
    CountEffect(s, p, d);
  }

  lemma CountKeepsStates(t: Topology, issued: set<Op>, y: System, y': System, p: string)
    requires StatesOk(t, issued, y.server) && DepsOk(t, issued, y.server) && LinksOk(t, issued, y) && LeafAdded(issued)
    requires p in y.server.state && y' == y.(server := y.server.(done := y'.server.done, state := y'.server.state))
    requires y'.server.state == y.server.state || (y.server.state[p] == WaitingChildren && y'.server.state == y.server.state[p := Runnable])
    requires forall x :: IsCompleted(y'.server, x) <==> IsCompleted(y.server, x)
    ensures StatesOk(t, issued, y'.server) && DepsOk(t, issued, y'.server) && LinksOk(t, issued, y')
  {}

  lemma CountKeepsLost(issued: set<Op>, y: System, y': System, exempt: set<(string, string)>, p: string, d: string)
    requires NoneLost(issued, y, exempt)
    requires y'.server.done == y.server.done + {(p, d)} && y'.seen == y.seen && y'.server.owed == y.server.owed
    requires y'.server.tree == y.server.tree && y'.server.parents == y.server.parents
    requires forall x :: IsCompleted(y'.server, x) <==> IsCompleted(y.server, x)
    ensures NoneLost(issued, y', exempt - {(d, p)})
  {
    forall c, q | IsCompleted(y'.server, c) && (c, q) !in exempt - {(d, p)}
      ensures OnItsWay(issued, y', c, q)
    {
      if (c, q) != (d, p) { assert OnItsWay(issued, y, c, q); }
    }
  }

  lemma CountKeepsDone(t: Topology, issued: set<Op>, s: Server, p: string, d: string)
    requires StatesOk(t, issued, s) && DepsOk(t, issued, s) && DoneOk(t, s)
    requires LeafAdded(issued) && (d, p) in t.edges && IsCompleted(s, d)
    ensures DoneOk(t, CompleteParentDependency(s, p, d))
  {
    CountEffect(s, p, d);
    var s' := CompleteParentDependency(s, p, d);
    assert forall x :: IsCompleted(s', x) <==> IsCompleted(s, x);
    forall n | n in s'.state && s'.state[n] == WaitingChildren
      ensures exists c :: (c, n) in t.edges && (n, c) !in s'.done
    {
      var c :| (c, n) in t.edges && (n, c) !in s.done;
      if n == p && (p, d) !in s.done {
        var x :| (p, x) in s.deps && (p, x) !in s'.done;
        assert (x, p) in t.edges;
      }
    }
  }

  // ---- The producer's calls keep the invariant ----

  lemma StatesFrame(t: Topology, issued: set<Op>, s: Server, op: Op, s': Server)
    requires StatesOk(t, issued, s) && !AddsNode(op) && s'.state == s.state
    ensures StatesOk(t, issued + {op}, s')
  {
    IssuedNow(issued, op);
  }

  /** Deps SETs after a call that wires at most the edge (d, p). */
  lemma DepsFrame(t: Topology, issued: set<Op>, s: Server, op: Op, s': Server)
    requires DepsOk(t, issued, s) && !op.AddJob?
    requires s'.deps == s.deps + (if op.SaddDep? || op.RegisterParent? then {(op.parent, op.child)} else {})
    requires op.SaddDep? || op.RegisterParent? ==> (op.child, op.parent) in t.edges && op.parent in s.state
    requires forall n :: n in s.state ==> n in s'.state
    ensures DepsOk(t, issued + {op}, s')
  {
    IssuedNow(issued, op);
  }

  lemma DoneFrame(t: Topology, s: Server, s': Server)
    requires DoneOk(t, s) && s'.state == s.state && s'.early == s.early && s'.done == s.done && s.deps <= s'.deps
    ensures DoneOk(t, s')
  {
    assert forall x :: IsCompleted(s', x) <==> IsCompleted(s, x);
  }

  lemma LinksFrame(t: Topology, issued: set<Op>, y: System, op: Op, y': System)
    requires LinksOk(t, issued, y)
    requires forall x :: IsCompleted(y.server, x) ==> IsCompleted(y'.server, x)
    requires y'.server.owed == y.server.owed
    requires y'.server.parents == y.server.parents + (if op.SaddParents? || op.RegisterParent? then {(op.child, op.parent)} else {})
    requires y'.server.tree == y.server.tree + (if op.AddJob? && op.treeParent.Some? then {(op.node, op.treeParent.value)} else {})
    requires Enabled(t, issued, op)
    requires forall e :: e in y'.seen ==> e in y.seen || (op == ReadState(e.0, e.1) && e in t.edges && IsCompleted(y'.server, e.0))
    ensures LinksOk(t, issued + {op}, y')
  {}

  /** No completion is lost by a call after which every completion on its way still is. */
  lemma LostFrame(issued: set<Op>, y: System, op: Op, y': System, exempt: set<(string, string)>)
    requires NoneLost(issued, y, {})
    requires forall x :: IsCompleted(y'.server, x) ==> IsCompleted(y.server, x)
    requires forall d, p :: (d, p) !in exempt && OnItsWay(issued, y, d, p) ==> OnItsWay(issued + {op}, y', d, p)
    ensures NoneLost(issued + {op}, y', exempt)
  {
    forall d, p | IsCompleted(y'.server, d) && (d, p) !in exempt ensures OnItsWay(issued + {op}, y', d, p) {
      assert OnItsWay(issued, y, d, p);
    }
  }

  lemma AddFlowKeeps(t: Topology, issued: set<Op>, y: System, n: string)
    requires Inv(t, issued, y, {}) && Enabled(t, issued, AddFlow(n))
    ensures Inv(t, issued + {AddFlow(n)}, Apply(y, AddFlow(n)), {})
  {
    var op := AddFlow(n);
    var y' := Apply(y, op);
    assert forall x :: IsCompleted(y'.server, x) <==> IsCompleted(y.server, x);
    DepsFrame(t, issued, y.server, op, y'.server);
    LinksFrame(t, issued, y, op, y');
    LostFrame(issued, y, op, y', {});
    AddFlowStates(t, issued, y.server, n);
    hide StatesOk, DepsOk, DoneOk, LinksOk, NoneLost;
  }

  lemma AddFlowStates(t: Topology, issued: set<Op>, s: Server, n: string)
    requires StatesOk(t, issued, s) && DepsOk(t, issued, s) && DoneOk(t, s) && Enabled(t, issued, AddFlow(n))
    ensures var s' := s.(state := s.state[n := WaitingChildren]);
            StatesOk(t, issued + {AddFlow(n)}, s') && DoneOk(t, s')
  {
    IssuedNow(issued, AddFlow(n));
    var s' := s.(state := s.state[n := WaitingChildren]);
    assert forall x :: IsCompleted(s', x) <==> IsCompleted(s, x);
    var e :| e in t.edges && e.1 == n;
    assert e == (e.0, n) && !IsCompleted(s, e.0);
  }

  lemma AddJobKeeps(t: Topology, issued: set<Op>, y: System, n: string, treeParent: Option<string>)
    requires Inv(t, issued, y, {}) && Enabled(t, issued, AddJob(n, treeParent))
    ensures Inv(t, issued + {AddJob(n, treeParent)}, Apply(y, AddJob(n, treeParent)), {})
  {
    var op := AddJob(n, treeParent);
    var y' := Apply(y, op);
    hide StatesOk, DepsOk, DoneOk, LinksOk, NoneLost;
    NotAddedYet(t, issued, y.server, n);
    AddJobStates(t, issued, y, n, treeParent);
    LinksFrame(t, issued, y, op, y');
    AddJobLost(t, issued, y, n, treeParent);
  }

  lemma NotAddedYet(t: Topology, issued: set<Op>, s: Server, n: string)
    requires StatesOk(t, issued, s) && !Added(issued, n)
    ensures n !in s.state
  {}

  lemma AddJobStates(t: Topology, issued: set<Op>, y: System, n: string, treeParent: Option<string>)
    requires StatesOk(t, issued, y.server) && DepsOk(t, issued, y.server) && DoneOk(t, y.server)
    requires Enabled(t, issued, AddJob(n, treeParent))
    ensures var issued', s' := issued + {AddJob(n, treeParent)}, Apply(y, AddJob(n, treeParent)).server;
            StatesOk(t, issued', s') && DepsOk(t, issued', s') && DoneOk(t, s')
  {
    IssuedNow(issued, AddJob(n, treeParent));
    var s' := Apply(y, AddJob(n, treeParent)).server;
    assert forall x :: IsCompleted(s', x) <==> IsCompleted(y.server, x);
  }

  /** A leaf that is only now added has not completed, so its links can change freely. */
  lemma AddJobLost(t: Topology, issued: set<Op>, y: System, n: string, treeParent: Option<string>)
    requires StatesOk(t, issued, y.server) && NoneLost(issued, y, {}) && Enabled(t, issued, AddJob(n, treeParent))
    ensures NoneLost(issued + {AddJob(n, treeParent)}, Apply(y, AddJob(n, treeParent)), {})
  {
    var op := AddJob(n, treeParent);
    var y' := Apply(y, op);
    forall d, p | IsCompleted(y'.server, d) ensures OnItsWay(issued + {op}, y', d, p) {
      assert OnItsWay(issued, y, d, p);
    }
  }

  lemma NodeExists(t: Topology, issued: set<Op>, s: Server, n: string)
    requires StatesOk(t, issued, s) && Added(issued, n)
    ensures n in s.state
  {}

  lemma SaddDepKeeps(t: Topology, issued: set<Op>, y: System, d: string, p: string)
    requires Inv(t, issued, y, {}) && Enabled(t, issued, SaddDep(d, p))
    ensures Inv(t, issued + {SaddDep(d, p)}, Apply(y, SaddDep(d, p)), {})
  {
    var op := SaddDep(d, p);
    var y' := Apply(y, op);
    hide StatesOk, DepsOk, DoneOk, LinksOk, NoneLost;
    NodeExists(t, issued, y.server, p);
    StatesFrame(t, issued, y.server, op, y'.server);
    DepsFrame(t, issued, y.server, op, y'.server);
    DoneFrame(t, y.server, y'.server);
    LinksFrame(t, issued, y, op, y');
    LostFrame(issued, y, op, y', {});
  }

  /** The producer reads a state only after linking the child, and acts on it only after reading. */
  lemma CallOrder(t: Topology, issued: set<Op>, y: System, d: string, p: string)
    requires LinksOk(t, issued, y)
    ensures NotifyIfCompleted(d, p) in issued ==> ReadState(d, p) in issued
    ensures ReadState(d, p) in issued ==> SaddParents(d, p) in issued
    ensures SaddParents(d, p) in issued ==> (d, p) in y.server.parents && !SameQueue(t, d, p)
    ensures (d, p) in y.seen ==> (d, p) in t.edges && IsCompleted(y.server, d) && ReadState(d, p) in issued
  {}

  lemma SaddParentsKeeps(t: Topology, issued: set<Op>, y: System, d: string, p: string)
    requires Inv(t, issued, y, {}) && Enabled(t, issued, SaddParents(d, p))
    ensures Inv(t, issued + {SaddParents(d, p)}, Apply(y, SaddParents(d, p)), {})
  {
    var op := SaddParents(d, p);
    var y' := Apply(y, op);
    hide StatesOk, DepsOk, DoneOk, LinksOk, NoneLost;
    StatesFrame(t, issued, y.server, op, y'.server);
    DepsFrame(t, issued, y.server, op, y'.server);
    DoneFrame(t, y.server, y'.server);
    LinksFrame(t, issued, y, op, y');
    CallOrder(t, issued, y, d, p);
    if op in issued {
      assert issued + {op} == issued && y.server.parents + {(d, p)} == y.server.parents;
    } else {
      LostFrame(issued, y, op, y', {});
    }
  }

  /** registerParent of a child that may have completed already. */
  lemma RegisterParentKeeps(t: Topology, issued: set<Op>, y: System, d: string, p: string)
    requires Inv(t, issued, y, {}) && Enabled(t, issued, RegisterParent(d, p))
    ensures Inv(t, issued + {RegisterParent(d, p)}, Apply(y, RegisterParent(d, p)), {})
  {
    var op := RegisterParent(d, p);
    var s := y.server;
    var wired := y.(server := s.(parents := s.parents + {(d, p)}, deps := s.deps + {(p, d)}));
    hide StatesOk, DepsOk, DoneOk, LinksOk, NoneLost, CompleteParentDependency;
    NodeExists(t, issued, s, p);
    StatesFrame(t, issued, s, op, wired.server);
    DepsFrame(t, issued, s, op, wired.server);
    DoneFrame(t, s, wired.server);
    LinksFrame(t, issued, y, op, wired);
    LostFrame(issued, y, op, wired, {(d, p)});
    if IsCompleted(s, d) {
      CountKeeps(t, issued + {op}, wired, {(d, p)}, p, d);
      assert {(d, p)} - {(d, p)} == {};
    } else {
      NotCompletedYet(issued + {op}, wired, d, p);
    }
  }

  lemma NotCompletedYet(issued: set<Op>, y: System, d: string, p: string)
    requires NoneLost(issued, y, {(d, p)}) && !IsCompleted(y.server, d)
    ensures NoneLost(issued, y, {})
  {}

  lemma ReadStateKeeps(t: Topology, issued: set<Op>, y: System, d: string, p: string)
    requires Inv(t, issued, y, {}) && Enabled(t, issued, ReadState(d, p))
    ensures Inv(t, issued + {ReadState(d, p)}, Apply(y, ReadState(d, p)), {})
  {
    var op := ReadState(d, p);
    var y' := Apply(y, op);
    LinkIsEdge(t, issued, y, d, p);
    CallOrder(t, issued, y, d, p);
    ReadStateLost(issued, y, d, p);
    hide StatesOk, DepsOk, DoneOk, LinksOk, NoneLost;
    StatesFrame(t, issued, y.server, op, y'.server);
    DepsFrame(t, issued, y.server, op, y'.server);
    LinksFrame(t, issued, y, op, y');
  }

  lemma LinkIsEdge(t: Topology, issued: set<Op>, y: System, d: string, p: string)
    requires LinksOk(t, issued, y) && SaddParents(d, p) in issued
    ensures (d, p) in t.edges
  {}

  lemma ReadStateLost(issued: set<Op>, y: System, d: string, p: string)
    requires NoneLost(issued, y, {}) && (NotifyIfCompleted(d, p) in issued ==> ReadState(d, p) in issued)
    ensures NoneLost(issued + {ReadState(d, p)}, Apply(y, ReadState(d, p)), {})
  {
    var op := ReadState(d, p);
    var y' := Apply(y, op);
    forall c, q | IsCompleted(y'.server, c) ensures OnItsWay(issued + {op}, y', c, q) {
      assert OnItsWay(issued, y, c, q);
    }
  }

  lemma NotifyKeeps(t: Topology, issued: set<Op>, y: System, d: string, p: string)
    requires Inv(t, issued, y, {}) && Enabled(t, issued, NotifyIfCompleted(d, p))
    ensures Inv(t, issued + {NotifyIfCompleted(d, p)}, Apply(y, NotifyIfCompleted(d, p)), {})
  {
    var op := NotifyIfCompleted(d, p);
    hide StatesOk, DepsOk, DoneOk, LinksOk, NoneLost, CompleteParentDependency, OnItsWay;
    CallOrder(t, issued, y, d, p);
    StatesFrame(t, issued, y.server, op, y.server);
    DepsFrame(t, issued, y.server, op, y.server);
    LinksFrame(t, issued, y, op, y);
    NotifyLost(issued, y, d, p);
    if (d, p) in y.seen {
      CountKeeps(t, issued + {op}, y, {(d, p)}, p, d);
      assert {(d, p)} - {(d, p)} == {};
    }
  }

  lemma NotifyLost(issued: set<Op>, y: System, d: string, p: string)
    requires NoneLost(issued, y, {})
    ensures NoneLost(issued + {NotifyIfCompleted(d, p)}, y, if (d, p) in y.seen then {(d, p)} else {})
  {
    hide NoneLost;
    LostFrame(issued, y, NotifyIfCompleted(d, p), y, if (d, p) in y.seen then {(d, p)} else {});
  }

  /** Every call of the producer keeps the invariant, whatever the workers did before it. */
  lemma ApplyKeeps(t: Topology, issued: set<Op>, y: System, op: Op)
    requires Inv(t, issued, y, {}) && Enabled(t, issued, op)
    ensures Inv(t, issued + {op}, Apply(y, op), {})
  {
    hide Inv, Enabled, Apply;
    match op
    case AddFlow(n) => AddFlowKeeps(t, issued, y, n);
    case AddJob(n, treeParent) => AddJobKeeps(t, issued, y, n, treeParent);
    case SaddDep(d, p) => SaddDepKeeps(t, issued, y, d, p);
    case SaddParents(d, p) => SaddParentsKeeps(t, issued, y, d, p);
    case RegisterParent(d, p) => RegisterParentKeeps(t, issued, y, d, p);
    case ReadState(d, p) => ReadStateKeeps(t, issued, y, d, p);
    case NotifyIfCompleted(d, p) => NotifyKeeps(t, issued, y, d, p);
  }

  // ---- The workers' steps keep the invariant ----

  lemma DeliverKeeps(t: Topology, issued: set<Op>, y: System, y': System, d: string, p: string)
    requires Inv(t, issued, y, {}) && DeliverStep(y, y', d, p)
    ensures Inv(t, issued, y', {})
  {
    var taken := y.(server := y.server.(owed := y.server.owed - {(d, p)}));
    assert Inv(t, issued, taken, {(d, p)}) by { TakeOwed(t, issued, y, d, p); }
    assert (d, p) in t.edges && IsCompleted(taken.server, d);
    hide Inv, CompleteParentDependency;
    CountKeeps(t, issued, taken, {(d, p)}, p, d);
    assert {(d, p)} - {(d, p)} == {};
  }

  /** Queueing or taking notifications of real completions touches only the queue. */
  lemma OwedFrame(t: Topology, issued: set<Op>, y: System, y': System)
    requires StatesOk(t, issued, y.server) && DepsOk(t, issued, y.server) && DoneOk(t, y.server) && LinksOk(t, issued, y)
    requires y' == y.(server := y.server.(owed := y'.server.owed))
    requires forall e :: e in y'.server.owed ==> e in t.edges && IsCompleted(y.server, e.0)
    ensures StatesOk(t, issued, y'.server) && DepsOk(t, issued, y'.server) && DoneOk(t, y'.server) && LinksOk(t, issued, y')
  {
    DoneFrame(t, y.server, y'.server);
    hide DoneOk;
    assert forall x :: IsCompleted(y'.server, x) <==> IsCompleted(y.server, x);
  }

  lemma OwedEdges(t: Topology, issued: set<Op>, y: System)
    requires LinksOk(t, issued, y)
    ensures forall e :: e in y.server.owed ==> e in t.edges && IsCompleted(y.server, e.0)
  {
    forall e | e in y.server.owed ensures e in t.edges && IsCompleted(y.server, e.0) { assert e == (e.0, e.1); }
  }

  lemma TakeOwed(t: Topology, issued: set<Op>, y: System, d: string, p: string)
    requires Inv(t, issued, y, {})
    ensures Inv(t, issued, y.(server := y.server.(owed := y.server.owed - {(d, p)})), {(d, p)})
  {
    var y' := y.(server := y.server.(owed := y.server.owed - {(d, p)}));
    hide StatesOk, DepsOk, DoneOk, LinksOk;
    OwedEdges(t, issued, y);
    OwedFrame(t, issued, y, y');
    forall c, q | IsCompleted(y'.server, c) && (c, q) != (d, p) ensures OnItsWay(issued, y', c, q) {
      assert OnItsWay(issued, y, c, q);
    }
  }

  ghost function EdgesFrom(t: Topology, d: string): set<(string, string)> {
    set e | e in t.edges && e.0 == d
  }

  /** Marking a runnable job completed leaves only its own parents to notify. */
  lemma MarkCompleted(t: Topology, issued: set<Op>, y: System, d: string)
    requires Inv(t, issued, y, {}) && d in y.server.state && y.server.state[d] == Runnable
    ensures Inv(t, issued, y.(server := y.server.(state := y.server.state[d := Completed])), EdgesFrom(t, d))
  {
    var s := y.server;
    var s' := s.(state := s.state[d := Completed]);
    var y' := y.(server := s');
    assert forall x :: IsCompleted(s', x) <==> IsCompleted(s, x) || x == d;
    assert forall p :: (d, p) !in t.edges ==> (d, p) !in s.tree && (d, p) !in s.parents;
    hide StatesOk, DepsOk, DoneOk, LinksOk;
    MarkStates(t, issued, y, d);
    MarkLost(t, issued, y, d);
  }

  lemma MarkStates(t: Topology, issued: set<Op>, y: System, d: string)
    requires StatesOk(t, issued, y.server) && DepsOk(t, issued, y.server) && DoneOk(t, y.server) && LinksOk(t, issued, y)
    requires d in y.server.state && y.server.state[d] == Runnable
    ensures var y' := y.(server := y.server.(state := y.server.state[d := Completed]));
      StatesOk(t, issued, y'.server) && DepsOk(t, issued, y'.server) && DoneOk(t, y'.server) && LinksOk(t, issued, y')
  {
    var s' := y.server.(state := y.server.state[d := Completed]);
    assert forall x :: IsCompleted(s', x) <==> IsCompleted(y.server, x) || x == d;
  }

  lemma MarkLost(t: Topology, issued: set<Op>, y: System, d: string)
    requires NoneLost(issued, y, {})
    requires forall p :: (d, p) !in t.edges ==> (d, p) !in y.server.tree && (d, p) !in y.server.parents
    ensures NoneLost(issued, y.(server := y.server.(state := y.server.state[d := Completed])), EdgesFrom(t, d))
  {
    var y' := y.(server := y.server.(state := y.server.state[d := Completed]));
    forall c, q | IsCompleted(y'.server, c) && (c, q) !in EdgesFrom(t, d) ensures OnItsWay(issued, y', c, q) {
      if c == d {
        assert (d, q) !in t.edges;
      } else {
        assert OnItsWay(issued, y, c, q);
      }
    }
  }

  ghost function Pairs(d: string, order: seq<string>): set<(string, string)> {
    set p | p in order :: (d, p)
  }

  /** Notifying the listed parents settles exactly those pairs. */
  lemma {:induction false} NotifyParentsKeeps(t: Topology, issued: set<Op>, y: System, exempt: set<(string, string)>, d: string, order: seq<string>)
    requires Inv(t, issued, y, exempt) && IsCompleted(y.server, d) && forall p :: p in order ==> (d, p) in t.edges
    ensures var s' := NotifyParents(t, y.server, d, order);
      && Inv(t, issued, y.(server := s'), exempt - Pairs(d, order))
      && s'.tree == y.server.tree && s'.parents == y.server.parents
    decreases |order|
  {
    if order == [] {
      assert exempt - Pairs(d, []) == exempt;
    } else {
      var p := order[0];
      var s' := if SameQueue(t, d, p) then CompleteParentDependency(y.server, p, d) else y.server.(owed := y.server.owed + {(d, p)});
      NotifyOneKeeps(t, issued, y, exempt, d, p);
      hide Inv, CompleteParentDependency, Pairs, IsCompleted;
      NotifyParentsKeeps(t, issued, y.(server := s'), exempt - {(d, p)}, d, order[1..]);
      PairsSplit(exempt, d, order);
    }
  }

  lemma PairsSplit(exempt: set<(string, string)>, d: string, order: seq<string>)
    requires order != []
    ensures exempt - Pairs(d, order) == exempt - {(d, order[0])} - Pairs(d, order[1..])
  {
    assert order == [order[0]] + order[1..];
  }

  lemma NotifyOneKeeps(t: Topology, issued: set<Op>, y: System, exempt: set<(string, string)>, d: string, p: string)
    requires Inv(t, issued, y, exempt) && IsCompleted(y.server, d) && (d, p) in t.edges
    ensures var s' := if SameQueue(t, d, p) then CompleteParentDependency(y.server, p, d) else y.server.(owed := y.server.owed + {(d, p)});
      && Inv(t, issued, y.(server := s'), exempt - {(d, p)}) && IsCompleted(s', d)
      && s'.tree == y.server.tree && s'.parents == y.server.parents
  {
    hide StatesOk, DepsOk, DoneOk, LinksOk, NoneLost;
    if SameQueue(t, d, p) {
      CountKeeps(t, issued, y, exempt, p, d);
      CountOnly(y.server, p, d);
    } else {
      OwedKeeps(t, issued, y, exempt, d, p);
    }
  }

  /** Counting changes neither the links nor a completed job. */
  lemma CountOnly(s: Server, p: string, d: string)
    ensures var s' := CompleteParentDependency(s, p, d);
      && s'.tree == s.tree && s'.parents == s.parents && forall x :: IsCompleted(s, x) ==> IsCompleted(s', x)
  {}

  lemma OwedKeeps(t: Topology, issued: set<Op>, y: System, exempt: set<(string, string)>, d: string, p: string)
    requires Inv(t, issued, y, exempt) && IsCompleted(y.server, d) && (d, p) in t.edges
    ensures Inv(t, issued, y.(server := y.server.(owed := y.server.owed + {(d, p)})), exempt - {(d, p)})
  {
    var y' := y.(server := y.server.(owed := y.server.owed + {(d, p)}));
    hide StatesOk, DepsOk, DoneOk, LinksOk;
    OwedEdges(t, issued, y);
    OwedFrame(t, issued, y, y');
    forall c, q | IsCompleted(y'.server, c) && (c, q) !in exempt - {(d, p)} ensures OnItsWay(issued, y', c, q) {
      if (c, q) != (d, p) { assert OnItsWay(issued, y, c, q); }
    }
  }

  lemma CompleteKeeps(t: Topology, issued: set<Op>, y: System, y': System, d: string, order: seq<string>)
    requires Inv(t, issued, y, {}) && CompleteStep(t, y, y', d, order)
    ensures Inv(t, issued, y', {})
  {
    var marked := y.(server := y.server.(state := y.server.state[d := Completed]));
    MarkCompleted(t, issued, y, d);
    assert forall p :: p in order ==> (d, p) in t.edges;
    hide StatesOk, DepsOk, DoneOk, LinksOk;
    NotifyParentsKeeps(t, issued, marked, EdgesFrom(t, d), d, order);
    forall c, q | IsCompleted(y'.server, c) ensures OnItsWay(issued, y', c, q) {
      if (c, q) in EdgesFrom(t, d) - Pairs(d, order) { assert q !in order; }
    }
  }

  // ---- Every reachable state ----

  lemma EmptyOk(t: Topology)
    ensures Inv(t, {}, Empty, {})
  {}

  lemma NextKeeps(t: Topology, ops: seq<Op>, pc: nat, y: System, pc': nat, y': System)
    requires WellOrdered(t, ops) && pc <= |ops| && Inv(t, Ops(ops[..pc]), y, {}) && Next(t, ops, pc, y, pc', y')
    ensures pc' <= |ops| && Inv(t, Ops(ops[..pc']), y', {})
  {
    hide Inv, Enabled;
    if pc < |ops| && pc' == pc + 1 && y' == Apply(y, ops[pc]) {
      ApplyKeeps(t, Ops(ops[..pc]), y, ops[pc]);
      assert ops[..pc + 1] == ops[..pc] + [ops[pc]];
      assert Ops(ops[..pc + 1]) == Ops(ops[..pc]) + {ops[pc]};
    } else if d, order :| CompleteStep(t, y, y', d, order) {
      CompleteKeeps(t, Ops(ops[..pc]), y, y', d, order);
    } else {
      var d, p :| DeliverStep(y, y', d, p);
      DeliverKeeps(t, Ops(ops[..pc]), y, y', d, p);
    }
  }

  /** The invariant holds after every prefix of every run. */
  lemma {:induction false} RunKeeps(t: Topology, ops: seq<Op>, run: seq<(nat, System)>, i: nat)
    requires WellOrdered(t, ops) && IsRun(t, ops, run) && i < |run|
    ensures run[i].0 <= |ops| && Inv(t, Ops(ops[..run[i].0]), run[i].1, {})
  {
    hide Inv, WellOrdered, Next;
    if i == 0 {
      assert Ops(ops[..0]) == {};
      EmptyOk(t);
    } else {
      RunKeeps(t, ops, run, i - 1);
      assert Next(t, ops, run[i - 1].0, run[i - 1].1, run[i - 1 + 1].0, run[i - 1 + 1].1);
      NextKeeps(t, ops, run[i - 1].0, run[i - 1].1, run[i].0, run[i].1);
    }
  }

  // ---- The theorems ----

  ghost predicate DepsCompleted(t: Topology, s: Server, n: string) {
    forall d :: (d, n) in t.edges ==> IsCompleted(s, d)
  }

  /** Whatever the interleaving, a node that may run or has run has only completed dependencies. */
  lemma NeverReleasedEarly(t: Topology, ops: seq<Op>, run: seq<(nat, System)>, i: nat, n: string)
    requires WellOrdered(t, ops) && IsRun(t, ops, run) && i < |run|
    requires n in run[i].1.server.state && run[i].1.server.state[n] != WaitingChildren
    ensures DepsCompleted(t, run[i].1.server, n)
  {
    hide WellOrdered, IsRun;
    RunKeeps(t, ops, run, i);
  }

  /** Once the submission is over, a completed dependency is counted by every dependent, or its notification is queued. */
  lemma NoneUnnotified(t: Topology, ops: seq<Op>, run: seq<(nat, System)>, i: nat, d: string, p: string)
    requires WellOrdered(t, ops) && IsRun(t, ops, run) && i < |run| && run[i].0 == |ops|
    requires (d, p) in t.edges && IsCompleted(run[i].1.server, d)
    ensures (p, d) in run[i].1.server.done || (d, p) in run[i].1.server.owed
  {
    hide IsRun;
    RunKeeps(t, ops, run, i);
    var y := run[i].1;
    assert ops[..|ops|] == ops;
    assert Finished(t, Ops(ops));
    assert OnItsWay(Ops(ops), y, d, p);
    CallOrder(t, Ops(ops), y, d, p);
    assert (d, p) in t.edges;
    FinishedEdge(t, Ops(ops), d, p);
  }

  lemma FinishedEdge(t: Topology, issued: set<Op>, d: string, p: string)
    requires Finished(t, issued) && (d, p) in t.edges
    ensures AddJob(d, Some(p)) in issued || RegisterParent(d, p) in issued || NotifyIfCompleted(d, p) in issued
  {
    assert (d, p).0 == d && (d, p).1 == p;
  }

  /** After the submission, with no notification in flight, a node waits exactly while a dependency is unfinished. */
  lemma ReleasedWhenDone(t: Topology, ops: seq<Op>, run: seq<(nat, System)>, i: nat, n: string)
    requires WellOrdered(t, ops) && IsRun(t, ops, run) && i < |run| && run[i].0 == |ops|
    requires run[i].1.server.owed == {} && n in t.names
    ensures n in run[i].1.server.state
    ensures run[i].1.server.state[n] == WaitingChildren <==> !DepsCompleted(t, run[i].1.server, n)
  {
    var s := run[i].1.server;
    forall d | (d, n) in t.edges && IsCompleted(s, d) ensures (n, d) in s.done {
      NoneUnnotified(t, ops, run, i, d, n);
    }
    assert ops[..|ops|] == ops;
    assert Added(Ops(ops), n);
    hide IsRun, WellOrdered;
    RunKeeps(t, ops, run, i);
  }

  /** `names` lists all nodes, dependencies first. */
  ghost predicate Sorted(t: Topology, names: seq<string>) {
    && (forall n :: n in t.names <==> n in names)
    && forall j, d :: 0 <= j < |names| && (d, names[j]) in t.edges ==> d in names[..j]
  }

  /** A finished submission never gets stuck: if nothing can run and nothing is queued, every node has completed. */
  lemma {:induction false} NothingStuck(t: Topology, ops: seq<Op>, run: seq<(nat, System)>, i: nat, names: seq<string>, k: nat)
    requires WellOrdered(t, ops) && IsRun(t, ops, run) && i < |run| && run[i].0 == |ops|
    requires run[i].1.server.owed == {} && forall n :: n in run[i].1.server.state ==> run[i].1.server.state[n] != Runnable
    requires Sorted(t, names) && k <= |names|
    ensures forall j :: 0 <= j < k ==> IsCompleted(run[i].1.server, names[j])
    decreases k
  {
    hide WellOrdered, IsRun;
    if k > 0 {
      NothingStuck(t, ops, run, i, names, k - 1);
      var n := names[k - 1];
      assert n in names;
      ReleasedWhenDone(t, ops, run, i, n);
      forall d | (d, n) in t.edges ensures IsCompleted(run[i].1.server, d) {
        assert d in names[..k - 1];
      }
    }
  }
}
