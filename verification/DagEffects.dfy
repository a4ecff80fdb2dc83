/** What each server call of a DAG submission does to the keys of the server, in every reachable state. */
module DagEffects {
  import opened Wrappers
  import opened DagProtocol
  import opened DagSafety

  // ---- Counting a completion, whatever is parked ----

  ghost predicate AllCounted(s: Server, p: string) {
    forall x :: (p, x) in s.deps ==> (p, x) in s.done
  }

  /** Nothing but the counts of `p` and its state changes. */
  ghost predicate OnlyParent(s: Server, s': Server, p: string) {
    && s'.deps == s.deps && s'.parents == s.parents && s'.tree == s.tree && s'.owed == s.owed && s'.state.Keys == s.state.Keys
    && forall n :: n in s.state && n != p ==> s'.state[n] == s.state[n]
  }

  /** A completion nobody waits for is dropped, one of a child that is not registered is parked, and any other is counted
      with the parked ones of registered children; whatever was new, a parent with nothing left uncounted may run.
  */
  lemma CountExactly(s: Server, p: string, d: string)
    requires s.done <= s.deps
    ensures var s' := CompleteParentDependency(s, p, d);
      && (p !in s.state ==> s' == s)
      && (p in s.state && (p, d) !in s.deps ==> s' == s.(early := s.early + {(p, d)}))
      && (p in s.state && (p, d) in s.deps ==>
            && OnlyParent(s, s', p)
            && (forall q, x :: (q, x) in s'.done <==> (q, x) in s.done || (q == p && (x == d || ((p, x) in s.early && (p, x) in s.deps))))
            && (forall q, x :: (q, x) in s'.early <==> (q, x) in s.early && !(q == p && (p, x) in s.deps))
            && s'.state[p] == if s.state[p] == WaitingChildren && s'.done != s.done && AllCounted(s', p) then Runnable else s.state[p])
  {
    if p in s.state && (p, d) in s.deps {
      var arrived := set e | e in s.early && e.0 == p && e in s.deps;
      assert forall q, x :: (q, x) in arrived <==> (q, x) in s.early && q == p && (q, x) in s.deps;
      var counted := s.(early := s.early - arrived, done := s.done + arrived + {(p, d)});
      ReadyExactly(counted, p);
    }
  }

  // ---- Counting in a sound state ----

  /** Nothing is parked, and a waiting node has an uncounted child. */
  ghost predicate Settled(s: Server) {
    && s.early == {} && s.done <= s.deps
    && forall n :: n in s.state && s.state[n] == WaitingChildren ==> exists x :: (n, x) in s.deps && (n, x) !in s.done
  }

  /** The pairs (parent, child) are counted, and exactly the waiting parents with no child left uncounted may run. */
  ghost predicate Counts(s: Server, s': Server, pairs: set<(string, string)>) {
    && s'.done == s.done + pairs && s'.state.Keys == s.state.Keys
    && forall n :: n in s.state ==>
         s'.state[n] == if s.state[n] == WaitingChildren && AllCounted(s', n) then Runnable else s.state[n]
  }

  ghost predicate SameLinks(s: Server, s': Server) {
    s'.deps == s.deps && s'.early == s.early && s'.parents == s.parents && s'.tree == s.tree
  }

  lemma CountsOne(s: Server, p: string, d: string)
    requires Settled(s) && p in s.state && (p, d) in s.deps
    ensures var s' := CompleteParentDependency(s, p, d);
      Counts(s, s', {(p, d)}) && SameLinks(s, s') && s'.owed == s.owed && Settled(s')
  {
    CountEffect(s, p, d);
    hide CompleteParentDependency;
    var s' := CompleteParentDependency(s, p, d);
    assert s'.done == s.done + {(p, d)};
    forall n | n in s.state
      ensures s'.state[n] == if s.state[n] == WaitingChildren && AllCounted(s', n) then Runnable else s.state[n]
    {
      if n != p && s.state[n] == WaitingChildren {
        var x :| (n, x) in s.deps && (n, x) !in s.done;
        assert (n, x) !in s'.done;
      }
    }
  }

  lemma CountsTwice(a: Server, b: Server, c: Server, one: set<(string, string)>, more: set<(string, string)>)
    requires Counts(a, b, one) && Counts(b, c, more) && b.deps == a.deps == c.deps
    ensures Counts(a, c, one + more)
  {
    forall n | n in a.state && AllCounted(b, n) ensures AllCounted(c, n) {}
  }

  ghost function SameQueuePairs(t: Topology, d: string, order: seq<string>): set<(string, string)> {
    set p | p in order && SameQueue(t, d, p) :: (p, d)
  }

  ghost function OtherQueuePairs(t: Topology, d: string, order: seq<string>): set<(string, string)> {
    set p | p in order && !SameQueue(t, d, p) :: (d, p)
  }

  lemma PairsStep(t: Topology, d: string, order: seq<string>)
    requires order != []
    ensures SameQueuePairs(t, d, order) == (if SameQueue(t, d, order[0]) then {(order[0], d)} else {}) + SameQueuePairs(t, d, order[1..])
    ensures OtherQueuePairs(t, d, order) == (if SameQueue(t, d, order[0]) then {} else {(d, order[0])}) + OtherQueuePairs(t, d, order[1..])
  {
    assert order == [order[0]] + order[1..];
  }

  lemma NothingCounted(s: Server, s': Server)
    requires Settled(s) && s'.state == s.state && s'.done == s.done && s'.deps == s.deps
    ensures Counts(s, s', {})
  {
    forall n | n in s.state && s.state[n] == WaitingChildren ensures !AllCounted(s', n) {
      var x :| (n, x) in s.deps && (n, x) !in s.done;
      assert (n, x) in s'.deps;
    }
  }

  lemma {:induction false} NotifyCounts(t: Topology, s: Server, d: string, order: seq<string>)
    requires Settled(s) && forall p :: p in order ==> p in s.state && (p, d) in s.deps
    ensures var s' := NotifyParents(t, s, d, order);
      Counts(s, s', SameQueuePairs(t, d, order)) && s'.owed == s.owed + OtherQueuePairs(t, d, order) && SameLinks(s, s')
    decreases |order|
  {
    hide Counts, Settled, CompleteParentDependency, SameQueuePairs, OtherQueuePairs;
    if order == [] {
      NothingCounted(s, s);
      NoPairs(t, d);
    } else {
      var p, rest := order[0], order[1..];
      PairsStep(t, d, order);
      if SameQueue(t, d, p) {
        var next := CompleteParentDependency(s, p, d);
        CountsOne(s, p, d);
        KeysKept(s, next, {(p, d)});
        NotifyCounts(t, next, d, rest);
        CountsTwice(s, next, NotifyParents(t, next, d, rest), {(p, d)}, SameQueuePairs(t, d, rest));
      } else {
        var next := s.(owed := s.owed + {(d, p)});
        NothingCounted(s, next);
        OwedSettled(s, next);
        NotifyCounts(t, next, d, rest);
        CountsTwice(s, next, NotifyParents(t, next, d, rest), {}, SameQueuePairs(t, d, rest));
      }
    }
  }

  lemma KeysKept(s: Server, s': Server, pairs: set<(string, string)>)
    requires Counts(s, s', pairs)
    ensures s'.state.Keys == s.state.Keys
  {}

  lemma OwedSettled(s: Server, s': Server)
    requires Settled(s) && s' == s.(owed := s'.owed)
    ensures Settled(s')
  {}

  lemma NoPairs(t: Topology, d: string)
    ensures SameQueuePairs(t, d, []) == {} && OtherQueuePairs(t, d, []) == {}
  {}

  // ---- The steps ----

  /** The parents that the keys of `d` name. */
  ghost predicate Links(s: Server, d: string, p: string) {
    (d, p) in s.tree || (d, p) in s.parents
  }

  /** A completion: the job is completed, it is counted in every parent of its own queue and queued for every other, and
      exactly the waiting jobs with nothing left uncounted may run.
  */
  ghost predicate Completes(t: Topology, y: System, y': System, d: string) {
    var s, s' := y.server, y'.server;
    && d in s.state && s.state[d] == Runnable && y'.seen == y.seen && SameLinks(s, s')
    && (forall p, x :: (p, x) in s'.done <==> (p, x) in s.done || (x == d && Links(s, d, p) && SameQueue(t, d, p)))
    && (forall x, p :: (x, p) in s'.owed <==> (x, p) in s.owed || (x == d && Links(s, d, p) && !SameQueue(t, d, p)))
    && s'.state.Keys == s.state.Keys && s'.state[d] == Completed
    && forall n :: n in s.state && n != d ==>
         s'.state[n] == if s.state[n] == WaitingChildren && AllCounted(s', n) then Runnable else s.state[n]
  }

  lemma SettledWhenLeaf(t: Topology, issued: set<Op>, y: System)
    requires Inv(t, issued, y, {}) && LeafAdded(issued)
    ensures Settled(y.server)
  {
    hide LinksOk, NoneLost, StatesOk;
    forall n | n in y.server.state && y.server.state[n] == WaitingChildren
      ensures exists x :: (n, x) in y.server.deps && (n, x) !in y.server.done
    {
      var x :| (x, n) in t.edges && (n, x) !in y.server.done;
      assert (n, x) in y.server.deps;
    }
  }

  lemma RunnableMeansLeaf(t: Topology, issued: set<Op>, y: System, d: string)
    requires Inv(t, issued, y, {}) && d in y.server.state && y.server.state[d] != WaitingChildren
    ensures LeafAdded(issued)
  {
    hide LinksOk, NoneLost, DepsOk, DoneOk;
  }

  /** The parents a job is linked to exist and have it registered. */
  lemma LinkedParents(t: Topology, issued: set<Op>, y: System, d: string, order: seq<string>)
    requires Inv(t, issued, y, {}) && LeafAdded(issued) && ListsParents(y.server, d, order)
    ensures forall p :: p in order ==> p in y.server.state && (p, d) in y.server.deps
  {
    hide NoneLost, DoneOk, StatesOk;
    forall p | p in order ensures p in y.server.state && (p, d) in y.server.deps {
      assert (d, p) in t.edges;
    }
  }

  lemma CompletesExactly(t: Topology, issued: set<Op>, y: System, y': System, d: string, order: seq<string>)
    requires Inv(t, issued, y, {}) && CompleteStep(t, y, y', d, order)
    ensures Completes(t, y, y', d)
  {
    hide Inv, LeafAdded, NotifyParents, SameQueuePairs, OtherQueuePairs, ListsParents, Settled, AllCounted, Links, SameQueue;
    RunnableMeansLeaf(t, issued, y, d);
    SettledWhenLeaf(t, issued, y);
    LinkedParents(t, issued, y, d, order);
    var marked := y.server.(state := y.server.state[d := Completed]);
    MarkSettled(y.server, marked, d);
    NotifyCounts(t, marked, d, order);
    CompletedPairs(t, y.server, d, order);
    assert y'.server == NotifyParents(t, marked, d, order);
  }

  lemma MarkSettled(s: Server, marked: Server, d: string)
    requires Settled(s) && marked == s.(state := s.state[d := Completed])
    ensures Settled(marked)
  {}

  lemma CompletedPairs(t: Topology, s: Server, d: string, order: seq<string>)
    requires ListsParents(s, d, order)
    ensures forall p, x :: (p, x) in SameQueuePairs(t, d, order) <==> x == d && Links(s, d, p) && SameQueue(t, d, p)
    ensures forall x, p :: (x, p) in OtherQueuePairs(t, d, order) <==> x == d && Links(s, d, p) && !SameQueue(t, d, p)
  {}

  /** A delivery: the notification leaves the queue and is counted. */
  ghost predicate Delivers(y: System, y': System, d: string, p: string) {
    var s, s' := y.server, y'.server;
    && (d, p) in s.owed && s'.owed == s.owed - {(d, p)} && y'.seen == y.seen && SameLinks(s, s') && Counts(s, s', {(p, d)})
  }

  lemma DeliversExactly(t: Topology, issued: set<Op>, y: System, y': System, d: string, p: string)
    requires Inv(t, issued, y, {}) && DeliverStep(y, y', d, p)
    ensures Delivers(y, y', d, p)
  {
    assert (d, p) in t.edges && IsCompleted(y.server, d);
    RunnableMeansLeaf(t, issued, y, d);
    SettledWhenLeaf(t, issued, y);
    RegisteredParent(t, issued, y, d, p);
    hide Inv, CompleteParentDependency;
    var taken := y.server.(owed := y.server.owed - {(d, p)});
    OwedSettled(y.server, taken);
    CountsOne(taken, p, d);
  }

  lemma RegisteredParent(t: Topology, issued: set<Op>, y: System, d: string, p: string)
    requires Inv(t, issued, y, {}) && LeafAdded(issued) && (d, p) in t.edges
    ensures p in y.server.state && (p, d) in y.server.deps
  {
    hide NoneLost, DoneOk, StatesOk, LinksOk;
  }

  /** A call of the producer: a job in its first state, a member or a link, or the count of a completion found. */
  ghost predicate Calls(y: System, op: Op, y': System) {
    var s, s' := y.server, y'.server;
    match op
    case AddFlow(n) => y'.seen == y.seen && s' == s.(state := s.state[n := WaitingChildren])
    case AddJob(n, treeParent) =>
      && y'.seen == y.seen && s'.state == s.state[n := Runnable] && s'.done == s.done && s'.early == s.early
      && s'.parents == s.parents && s'.owed == s.owed
      && s'.tree == s.tree + (if treeParent.Some? then {(n, treeParent.value)} else {})
      && s'.deps == s.deps + (if treeParent.Some? then {(treeParent.value, n)} else {})
    case SaddDep(d, p) => y'.seen == y.seen && s' == s.(deps := s.deps + {(p, d)})
    case SaddParents(d, p) => y'.seen == y.seen && s' == s.(parents := s.parents + {(d, p)})
    case RegisterParent(d, p) =>
      && y'.seen == y.seen && s'.parents == s.parents + {(d, p)} && s'.deps == s.deps + {(p, d)}
      && s'.tree == s.tree && s'.owed == s.owed && s'.early == s.early
      && (if d in s.state && s.state[d] == Completed then Counts(s.(deps := s'.deps), s', {(p, d)}) else s'.state == s.state && s'.done == s.done)
    case ReadState(d, p) => s' == s && y'.seen == y.seen + (if d in s.state && s.state[d] == Completed then {(d, p)} else {})
    case NotifyIfCompleted(d, p) =>
      && y'.seen == y.seen
      && if (d, p) in y.seen then SameLinks(s, s') && s'.owed == s.owed && Counts(s, s', {(p, d)}) else s' == s
  }

  lemma CallsExactly(t: Topology, issued: set<Op>, y: System, op: Op)
    requires Inv(t, issued, y, {}) && Enabled(t, issued, op)
    ensures Calls(y, op, Apply(y, op))
  {
    match op
    case RegisterParent(d, p) =>
      if IsCompleted(y.server, d) {
        RunnableMeansLeaf(t, issued, y, d);
        SettledWhenLeaf(t, issued, y);
        RegisteredParent(t, issued, y, d, p);
        RegisteredCounts(y.server, d, p);
      }
    case NotifyIfCompleted(d, p) =>
      if (d, p) in y.seen {
        assert (d, p) in t.edges && IsCompleted(y.server, d);
        RunnableMeansLeaf(t, issued, y, d);
        SettledWhenLeaf(t, issued, y);
        RegisteredParent(t, issued, y, d, p);
        CountsOne(y.server, p, d);
      }
    case AddJob(n, None) =>
    case _ =>
  }

  lemma RegisteredCounts(s: Server, d: string, p: string)
    requires Settled(s) && p in s.state && (p, d) in s.deps
    ensures var wired := s.(parents := s.parents + {(d, p)}, deps := s.deps + {(p, d)});
      var s' := CompleteParentDependency(wired, p, d);
      && s'.parents == s.parents + {(d, p)} && s'.deps == s.deps + {(p, d)} && s'.tree == s.tree && s'.owed == s.owed && s'.early == s.early
      && Counts(s.(deps := s'.deps), s', {(p, d)})
  {
    var wired := s.(parents := s.parents + {(d, p)}, deps := s.deps + {(p, d)});
    assert wired.deps == s.deps;
    assert Settled(wired);
    CountsOne(wired, p, d);
  }

  /** Each step of a run is one of these three, with exactly that effect. */
  lemma StepsExactly(t: Topology, ops: seq<Op>, run: seq<(nat, System)>, i: nat, j: nat)
    requires WellOrdered(t, ops) && IsRun(t, ops, run) && j == i + 1 < |run|
    ensures var y, y' := run[i].1, run[j].1;
      || (run[i].0 < |ops| && run[j].0 == run[i].0 + 1 && Calls(y, ops[run[i].0], y'))
      || (run[j].0 == run[i].0 && exists d :: Completes(t, y, y', d))
      || (run[j].0 == run[i].0 && exists d, p :: Delivers(y, y', d, p))
  {
    var y, y', pc := run[i].1, run[j].1, run[i].0;
    assert Next(t, ops, run[i].0, run[i].1, run[i + 1].0, run[i + 1].1);
    RunKeeps(t, ops, run, i);
    hide Inv, Enabled, Apply, Calls, Completes, Delivers, IsRun;
    if pc < |ops| && run[j].0 == pc + 1 && y' == Apply(y, ops[pc]) {
      CallsExactly(t, Ops(ops[..pc]), y, ops[pc]);
    } else if d, order :| CompleteStep(t, y, y', d, order) {
      CompletesExactly(t, Ops(ops[..pc]), y, y', d, order);
    } else {
      var d, p :| DeliverStep(y, y', d, p);
      DeliversExactly(t, Ops(ops[..pc]), y, y', d, p);
    }
  }
}
