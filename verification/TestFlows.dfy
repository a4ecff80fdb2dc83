/** The in-memory flow producer: trees and DAGs are created in one go, before any worker sees a job of them. */
module TestFlows {
  import opened Wrappers
  import opened Sequences
  import opened FlowRelease

  // ---- Creating jobs ----

  /** Adds the job to the deps of each listed parent. */
  function RegisterDependencies(s: Store, parents: seq<nat>, child: nat): Store
    decreases |parents|
  {
    if parents == [] then s
    else
      var p := parents[0];
      RegisterDependencies(if p in s then s[p := s[p].(deps := s[p].deps + {child})] else s, parents[1..], child)
  }

  /** A new flow job: registered with its parents, then stored with links to them. */
  function AddJob(s: Store, id: nat, wait: bool, parents: seq<nat>): Store {
    RegisterDependencies(s, parents, id)[id := Record(if wait then WaitingChildren else Waiting, {}, {}, parents)]
  }

  lemma {:induction false} RegisterEffect(s: Store, parents: seq<nat>, child: nat)
    ensures var s' := RegisterDependencies(s, parents, child);
      && s'.Keys == s.Keys
      && forall p :: p in s ==> s'[p] == if p in parents then s[p].(deps := s[p].deps + {child}) else s[p]
    decreases |parents|
  {
    if parents != [] {
      var p := parents[0];
      RegisterEffect(if p in s then s[p := s[p].(deps := s[p].deps + {child})] else s, parents[1..], child);
      assert parents == [p] + parents[1..];
    }
  }

  /** The invariant of a store while the parents in `open` still lack children. */
  ghost predicate Building(s: Store, open: set<nat>) {
    && Linked(s) && Counted(s, {})
    && (forall p :: p in s && p !in open ==> GatedRecord(s[p]))
    && (forall p :: p in open ==> p in s && s[p].state == WaitingChildren && s[p].depsDone == {})
  }

  lemma BuiltIsInv(s: Store)
    ensures Building(s, {}) <==> Inv(s, {})
  {}

  /** What was built beside a finished store is sound by itself: no link leads from the new jobs to the old ones. */
  lemma GrownCreates(before: Store, after: Store, rank: map<nat, nat>, base: nat)
    requires Building(before, {}) && Building(after, {}) && Ranked(after, rank) && Grown(before, after, base)
    ensures Creates(before, after)
  {
    var created := NewPart(before, after);
    NewLinked(before, after);
    NewCounted(before, after);
    assert forall j :: j in created ==> j in after && created[j] == after[j];
    assert Ranked(created, rank);
  }

  lemma NewLinked(before: Store, after: Store)
    requires Linked(before) && Linked(after) && Kept(before, after)
    ensures Linked(NewPart(before, after))
  {
    var created := NewPart(before, after);
    assert forall j :: j in created <==> j in after && j !in before;
    assert forall j :: j in created ==> created[j] == after[j];
    hide NewPart;
    forall c, p | c in created && p in created[c].parents ensures p in created && c in created[p].deps {
      assert p in after && c in after[p].deps;
      assert p in before ==> c in before;
    }
    forall c, p | p in created && c in created[p].deps ensures c in created && p in created[c].parents {
      assert c in after && p in after[c].parents;
      assert c in before ==> p in before;
    }
  }

  lemma NewCounted(before: Store, after: Store)
    requires Kept(before, after) && Counted(after, {}) && Linked(NewPart(before, after))
    ensures Counted(NewPart(before, after), {})
  {
    hide CountedIn;
    var created := NewPart(before, after);
    assert forall j :: j in created ==> j in after && created[j] == after[j];
    hide NewPart;
    assert forall p, c :: p in created && c in created[p].deps ==> c in created;
    hide Linked;
    forall p | p in created ensures CountedIn(created, p, {}) {
      assert CountedIn(after, p, {});
      CountedInPart(created, after, p);
    }
  }

  lemma CountedInPart(part: Store, s: Store, p: nat)
    requires p in part && p in s && part[p] == s[p] && CountedIn(s, p, {})
    requires forall c :: c in part[p].deps ==> c in part && c in s && part[c] == s[c]
    ensures CountedIn(part, p, {})
  {}

  lemma AddJobKeeps(s: Store, open: set<nat>, id: nat, wait: bool, parents: seq<nat>)
    requires Building(s, open) && id !in s && forall p :: p in parents ==> p in open
    ensures Building(AddJob(s, id, wait, parents), if wait then open + {id} else open)
  {
    hide RegisterDependencies, Linked, Counted, Missing, GatedRecord;
    var s' := AddJob(s, id, wait, parents);
    RegisterEffect(s, parents, id);
    AddJobLinked(s, s', id, wait, parents);
    AddJobCounted(s, s', id, parents);
    assert GatedRecord(Record(Waiting, {}, {}, parents)) by { LeafGated(parents); }
    forall p | p in s' && p !in (if wait then open + {id} else open) ensures GatedRecord(s'[p]) {
      assert p == id || s'[p] == s[p];
    }
  }

  lemma LeafGated(parents: seq<nat>)
    ensures GatedRecord(Record(Waiting, {}, {}, parents))
  {}

  lemma AddJobLinked(s: Store, s': Store, id: nat, wait: bool, parents: seq<nat>)
    requires Linked(s) && id !in s && (forall p :: p in parents ==> p in s) && s'.Keys == s.Keys + {id}
    requires s'[id] == Record(if wait then WaitingChildren else Waiting, {}, {}, parents)
    requires forall p :: p in s ==> s'[p] == if p in parents then s[p].(deps := s[p].deps + {id}) else s[p]
    ensures Linked(s')
  {
    hide Linked;
    forall c, p | c in s' && p in s'[c].parents ensures p in s' && c in s'[p].deps {
      if c != id { LinkOf(s, c, p); }
    }
    forall c, p | p in s' && c in s'[p].deps ensures c in s' && p in s'[c].parents {
      LinkOf(s, c, p);
    }
    LinkedIf(s');
  }

  lemma LinkOf(s: Store, c: nat, p: nat)
    requires Linked(s)
    ensures c in s && p in s[c].parents <==> p in s && c in s[p].deps
  {}

  lemma AddJobCounted(s: Store, s': Store, id: nat, parents: seq<nat>)
    requires Counted(s, {}) && id !in s && s'.Keys == s.Keys + {id}
    requires s'[id].state != Completed && s'[id].deps == {} == s'[id].depsDone
    requires forall p :: p in s ==> s'[p] == if p in parents then s[p].(deps := s[p].deps + {id}) else s[p]
    ensures Counted(s', {})
  {
    assert forall c :: IsCompleted(s', c) <==> IsCompleted(s, c);
    forall q | q in s' ensures CountedIn(s', q, {}) {
      if q != id { assert CountedIn(s, q, {}); }
    }
  }

  lemma OpenStored(s: Store, open: set<nat>)
    requires Building(s, open)
    ensures forall p :: p in open ==> p in s && s[p].state == WaitingChildren && s[p].depsDone == {}
  {}

  /** Links an existing job without parents to an open parent. */
  function Attach(s: Store, child: nat, parent: nat): Store
    requires child in s && parent in s && child != parent
  {
    s[child := s[child].(parents := [parent])][parent := s[parent].(deps := s[parent].deps + {child})]
  }

  lemma AttachKeeps(s: Store, open: set<nat>, child: nat, parent: nat)
    requires Building(s, open) && child in s && parent in open && child != parent && child !in open
    requires s[child].parents == [] && s[child].state != Completed
    ensures Building(Attach(s, child, parent), open)
  {
    var s' := Attach(s, child, parent);
    assert s'.Keys == s.Keys;
    AttachLinked(s, child, parent);
    AttachCounted(s, child, parent);
    hide Linked, Counted;
  }

  lemma AttachCounted(s: Store, child: nat, parent: nat)
    requires Counted(s, {}) && child in s && parent in s && child != parent && s[child].state != Completed
    ensures Counted(Attach(s, child, parent), {})
  {
    var s' := Attach(s, child, parent);
    assert forall c :: IsCompleted(s', c) <==> IsCompleted(s, c);
    assert !IsCompleted(s, child);
    hide IsCompleted;
    forall q | q in s' ensures CountedIn(s', q, {}) { assert CountedIn(s, q, {}); }
  }

  lemma AttachLinked(s: Store, child: nat, parent: nat)
    requires Linked(s) && child in s && parent in s && child != parent && s[child].parents == []
    ensures Linked(Attach(s, child, parent))
  {
    var s' := Attach(s, child, parent);
    forall c, p | c in s' && p in s'[c].parents ensures p in s' && c in s'[p].deps {
      if c != child { assert p in s && c in s[p].deps; }
    }
    forall c, p | p in s' && c in s'[p].deps ensures c in s' && p in s'[c].parents {
      if !(c == child && p == parent) { assert c in s && p in s[c].parents; }
    }
  }

  /** A parent with its children in place waits for them. */
  lemma CloseKeeps(s: Store, open: set<nat>, p: nat)
    requires Building(s, open) && p in open && exists d :: d in s[p].deps
    ensures Building(s, open - {p})
  {
    assert Missing(s[p]);
  }

  // ---- Trees ----

  datatype FlowJob = FlowJob(name: string, children: seq<FlowJob>)

  datatype JobNode = JobNode(job: nat, children: seq<JobNode>)

  ghost function Height(flow: FlowJob): nat {
    if flow.children == [] then 0 else 1 + MaxHeight(flow.children)
  }

  ghost function MaxHeight(flows: seq<FlowJob>): (h: nat)
    ensures forall f :: f in flows ==> Height(f) <= h
  {
    if flows == [] then 0
    else
      var rest, last := MaxHeight(flows[..|flows| - 1]), Height(flows[|flows| - 1]);
      assert forall f :: f in flows ==> f in flows[..|flows| - 1] || f == flows[|flows| - 1];
      if rest > last then rest else last
  }

  /** How many jobs a tree asks for. */
  ghost function Size(flow: FlowJob): nat {
    1 + ForestSize(flow.children)
  }

  ghost function ForestSize(flows: seq<FlowJob>): nat {
    if flows == [] then 0 else ForestSize(flows[..|flows| - 1]) + Size(flows[|flows| - 1])
  }

  /** The record is as it was, except that a job without parents may have been linked to some. */
  ghost predicate Untouched(after: Record, before: Record) {
    && after.deps == before.deps && after.depsDone == before.depsDone && after.state == before.state
    && (before.parents == [] || after.parents == before.parents)
  }

  /** The jobs of the tree carry exactly its edges: each waits for its children if it has any, and a child's only
      parent is its parent in the tree.
  */
  ghost predicate Mirrors(s: Store, flow: FlowJob, node: JobNode) {
    && node.job in s && |node.children| == |flow.children|
    && s[node.job].deps == Jobs(node.children) && s[node.job].depsDone == {}
    && s[node.job].state == (if flow.children == [] then Waiting else WaitingChildren)
    && forall i :: 0 <= i < |flow.children| ==> Mirrors(s, flow.children[i], node.children[i]) && ChildOf(s, node.children[i], node.job)
  }

  predicate ChildOf(s: Store, child: JobNode, parent: nat) {
    child.job in s && s[child.job].parents == [parent]
  }

  ghost function Jobs(nodes: seq<JobNode>): set<nat> {
    set n | n in nodes :: n.job
  }

  /** Every job of the tree. */
  ghost function AllJobs(node: JobNode): set<nat> {
    {node.job} + ForestJobs(node.children)
  }

  ghost function ForestJobs(nodes: seq<JobNode>): (jobs: set<nat>)
    ensures forall i :: 0 <= i < |nodes| ==> AllJobs(nodes[i]) <= jobs
  {
    if nodes == [] then {} else ForestJobs(nodes[..|nodes| - 1]) + AllJobs(nodes[|nodes| - 1])
  }

  /** The new jobs are numbered from `lo` up to `hi`. */
  ghost predicate Numbered(before: Store, after: Store, lo: nat, hi: nat) {
    lo <= hi && after.Keys == before.Keys + Interval(lo, hi)
  }

  lemma NumberedTrans(a: Store, b: Store, c: Store, lo: nat, mid: nat, hi: nat)
    requires Numbered(a, b, lo, mid) && Numbered(b, c, mid, hi)
    ensures Numbered(a, c, lo, hi)
  {
    hide Interval;
    IntervalJoin(lo, mid, hi);
  }

  lemma NumberedSame(a: Store, b: Store, n: nat)
    requires a.Keys == b.Keys
    ensures Numbered(a, b, n, n)
  {
    SmallIntervals(n);
  }

  lemma NumberedOne(a: Store, b: Store, n: nat)
    requires b.Keys == a.Keys + {n}
    ensures Numbered(a, b, n, n + 1)
  {
    SmallIntervals(n);
  }

  /** All jobs of the tree are numbered from `lo` up to `hi`. */
  ghost predicate Within(node: JobNode, lo: nat, hi: nat) {
    AllJobs(node) <= Interval(lo, hi)
  }

  /** Changes elsewhere, or a link from the root to a parent, do not disturb a tree. */
  lemma {:induction false} MirrorsFrame(s: Store, s': Store, flow: FlowJob, node: JobNode, lo: nat, hi: nat)
    requires Mirrors(s, flow, node) && Within(node, lo, hi)
    requires forall j :: lo <= j < hi && j in s ==> j in s' && Untouched(s'[j], s[j])
    ensures Mirrors(s', flow, node)
    decreases node
  {
    assert Untouched(s'[node.job], s[node.job]);
    forall i | 0 <= i < |flow.children|
      ensures Mirrors(s', flow.children[i], node.children[i]) && ChildOf(s', node.children[i], node.job)
    {
      var child := node.children[i];
      assert AllJobs(child) <= AllJobs(node) && child.job in AllJobs(child) && ChildOf(s, child, node.job);
      MirrorsFrame(s, s', flow.children[i], child, lo, hi);
    }
  }

  /** The store of all queues, and the number of the next job. */
  class FlowProducer {
    var records: Store
    var nextId: nat
    /** Dependencies rank below the jobs that wait for them. */
    ghost var rank: map<nat, nat>

    ghost predicate Valid()
      reads this
    {
      Consistent({})
    }

    ghost predicate Consistent(open: set<nat>)
      reads this
    {
      Building(records, open) && Ranked(records, rank) && (forall j :: j in records ==> j < nextId) && rank.Keys == records.Keys
    }

    /** A store with finished flows is sound, so whatever happens from here on, a job waits for children exactly while
        one has not completed, and if every job that ran has completed and nothing can run, no job is left.
    */
    lemma FlowsRunThrough(states: seq<Store>, events: seq<Event>, i: nat, p: nat)
      requires Valid() && IsHistory(states, events) && states[0] == records && i < |states| && p in states[i]
      ensures states[i][p].state == WaitingChildren <==> exists d :: d in states[i][p].deps && !IsCompleted(states[i], d)
      ensures (forall j :: j in states[i] ==> states[i][j].state == Completed || states[i][j].state == WaitingChildren) ==>
                states[i][p].state == Completed
    {
      hide IsHistory, Building, Ranked, Inv, IsCompleted;
      BuiltIsInv(records);
      WaitsExactlyWhilePending(states, events, i, p);
      if forall j :: j in states[i] ==> states[i][j].state == Completed || states[i][j].state == WaitingChildren {
        NothingStuck(states, events, i, p);
      }
    }

    /** A worker takes a step; flows can be created before it and after it. */
    method Work(step: Step)
      requires Valid() && Enabled(records, step)
      modifies this`records
      ensures Valid() && records == Apply(old(records), step) && Does(old(records), step, records)
    {
      hide Building, Ranked, Inv, SettleParent, Does;
      BuiltIsInv(records);
      StepDoes(records, step);
      ApplyKeeps(records, step);
      StepFixes(records, step);
      RankedFrame(records, Apply(records, step), rank);
      match step {
        case Start(j) => records := records[j := records[j].(state := Active)];
        case Complete(j) =>
          records := records[j := records[j].(state := Completed)];
          SettleAll(records[j].parents, j);
        case Fail(j) => records := records[j := records[j].(state := Failed)];
        case Retry(j) => records := records[j := records[j].(state := Waiting)];
        case Park(j) => records := records[j := records[j].(state := if PendingDependencies(records[j]) <= 0 then Waiting else WaitingChildren)];
      }
      BuiltIsInv(records);
    }

    /** Settles a completion with each parent in turn. */
    method SettleAll(parents: seq<nat>, job: nat)
      modifies this`records
      ensures records == SettleParents(old(records), parents, job)
    {
      hide SettleParent;
      for i := 0 to |parents|
        invariant SettleParents(records, parents[i..], job) == SettleParents(old(records), parents, job)
      {
        assert parents[i..][0] == parents[i] && parents[i..][1..] == parents[i + 1..];
        records := SettleParent(records, parents[i], job);
      }
    }

    constructor ()
      ensures Valid() && records == map[]
    {
      records, nextId, rank := map[], 0, map[];
    }

    /** Registers a child with each parent in turn. */
    method LinkToParents(parents: seq<nat>, child: nat)
      modifies this`records
      ensures records == RegisterDependencies(old(records), parents, child)
    {
      for i := 0 to |parents|
        invariant RegisterDependencies(records, parents[i..], child) == RegisterDependencies(old(records), parents, child)
      {
        var p := parents[i];
        assert parents[i..][0] == p && parents[i..][1..] == parents[i + 1..];
        if p in records { records := records[p := records[p].(deps := records[p].deps + {child})]; }
      }
    }

    /** Creates a job after registering it with its parents. */
    method AddFlowJob(wait: bool, parents: seq<nat>, ghost open: set<nat>, ghost height: nat) returns (id: nat)
      requires Consistent(open) && forall p :: p in parents ==> p in open && rank[p] > height
      modifies this
      ensures Consistent(if wait then open + {id} else open)
      ensures id == old(nextId) && nextId == id + 1 && id !in old(records)
      ensures records == AddJob(old(records), id, wait, parents) && rank == old(rank)[id := height]
      ensures Numbered(old(records), records, id, id + 1)
    {
      hide Building, Ranked, RegisterDependencies;
      id := nextId;
      OpenStored(records, open);
      AddJobKeeps(records, open, id, wait, parents);
      AddJobRanked(records, rank, open, id, wait, parents, height);
      LinkToParents(parents, id);
      records := records[id := Record(if wait then WaitingChildren else Waiting, {}, {}, parents)];
      nextId := nextId + 1;
      rank := rank[id := height];
      NumberedOne(old(records), records, id);
    }

    /** Links a sub-flow root that was created before its parent. */
    method AttachParent(child: nat, parent: nat, ghost open: set<nat>)
      requires Consistent(open) && child in records && child !in open && parent in open && rank[child] < rank[parent]
      requires records[child].parents == [] && records[child].state != Completed
      modifies this`records
      ensures Consistent(open) && records == Attach(old(records), child, parent) && records.Keys == old(records).Keys
    {
      hide Building, Ranked;
      OpenStored(records, open);
      AttachKeeps(records, open, child, parent);
      AttachRanked(records, rank, child, parent);
      records := Attach(records, child, parent);
    }

    /** Creates a tree: the sub-flows first, then their parent, then its leaves. The new jobs are exactly those of the
        tree, one for each of its nodes.
    */
    method BuildTree(flow: FlowJob) returns (node: JobNode)
      requires Valid()
      modifies this
      ensures Valid() && Creates(old(records), records)
      ensures Grown(old(records), records, old(nextId)) && Mirrors(records, flow, node)
      ensures AllJobs(node) == records.Keys - old(records).Keys && |AllJobs(node)| == Size(flow)
      ensures Whole(old(records), records, flow, node, old(nextId), nextId)
      ensures node.job in records && records[node.job].parents == [] && node.job in rank && rank[node.job] == Height(flow)
      ensures RankKept(old(rank), rank)
      decreases flow, 1
    {
      if flow.children == [] {
        node := AddLeaf(flow);
        WholeIsNew(old(records), records, flow, node, old(nextId), nextId);
        GrownCreates(old(records), records, rank, old(nextId));
        return;
      }
      hide Building, Ranked, Mirrors, Within, SubOk, SubsOk, RootsAscending, Height, Grown, RankKept, Outside, Numbered, AllJobs, Whole, SubsCounted,
        Placed, Creates;
      var subFlows := BuildSubFlows(flow);
      ghost var before, rankBefore := records, rank;
      var id := AddFlowJob(true, [], {}, Height(flow));
      AddJobAlone(before, id, true);
      ParentAdded(before, rankBefore, records, rank, flow, subFlows, old(nextId), id);
      ghost var added, rankAdded := records, rank;
      var children := AddChildren(flow, subFlows, id, old(nextId));
      node := JobNode(id, children);
      TreeCounted(old(records), before, added, records, flow, subFlows, children, old(nextId), id, nextId);
      WholeIsNew(old(records), records, flow, node, old(nextId), nextId);
      GrownTrans(old(records), before, added, records, old(nextId), id);
      GrownCreates(old(records), records, rank, old(nextId));
      RankKeptTrans(old(rank), rankBefore, rankAdded);
      RankKeptTrans(old(rank), rankAdded, rank);
      RankOf(rankAdded, rank, id);
    }

    method AddLeaf(flow: FlowJob) returns (node: JobNode)
      requires Valid() && flow.children == []
      modifies this
      ensures Valid() && Grown(old(records), records, old(nextId)) && Mirrors(records, flow, node)
      ensures Whole(old(records), records, flow, node, old(nextId), nextId)
      ensures node.job in records && records[node.job].parents == [] && node.job in rank && rank[node.job] == Height(flow)
      ensures RankKept(old(rank), rank)
    {
      hide Building, Ranked;
      AddJobAlone(records, nextId, false);
      var id := AddFlowJob(false, [], {}, 0);
      node := JobNode(id, []);
      LeafCounted(flow, node);
    }

    /** The children that have children of their own, each with its whole tree. */
    method BuildSubFlows(flow: FlowJob) returns (subs: seq<Option<JobNode>>)
      requires Valid()
      modifies this
      ensures Valid() && old(nextId) <= nextId && Grown(old(records), records, old(nextId))
      ensures |subs| == |flow.children| && SubsOk(records, rank, flow, subs, 0, old(nextId), nextId) && RootsAscending(subs, nextId)
      ensures RankKept(old(rank), rank)
      ensures SubsCounted(old(records), records, flow, subs, old(nextId), nextId)
      decreases flow, 0
    {
      hide Building, Ranked, Mirrors, Within, SubOk, Height, Grown, RankKept, SubsOk, RootsAscending, Numbered, Whole, SubsCounted, Creates;
      subs := [];
      NoneCounted(records, flow, nextId);
      NothingYet(records, rank, flow, nextId);
      for i := 0 to |flow.children|
        invariant Valid() && old(nextId) <= nextId && Grown(old(records), records, old(nextId))
        invariant |subs| == i && SubsOk(records, rank, flow, subs, 0, old(nextId), nextId) && RootsAscending(subs, nextId)
        invariant RankKept(old(rank), rank) && SubsCounted(old(records), records, flow, subs, old(nextId), nextId)
      {
        var def := flow.children[i];
        if def.children != [] {
          ghost var before, rankBefore, next := records, rank, nextId;
          var node := BuildTree(def);
          WholeBounds(before, records, def, node, next, nextId);
          SubCounted(old(records), before, records, flow, subs, node, old(nextId), next, nextId);
          SubBuilt(old(records), before, old(rank), rankBefore, records, rank, flow, subs, node, old(nextId), next, nextId);
          subs := subs + [Some(node)];
        } else {
          NoSub(records, rank, flow, subs, old(nextId), nextId);
          NoSubCounted(old(records), records, flow, subs, old(nextId), nextId);
          subs := subs + [None];
        }
      }
    }

    /** Links or creates the children of the parent just created, in order. */
    method AddChildren(flow: FlowJob, subs: seq<Option<JobNode>>, parent: nat, ghost base: nat) returns (children: seq<JobNode>)
      requires flow.children != [] && |subs| == |flow.children| && base <= parent && RootsAscending(subs, parent)
      requires Consistent({parent}) && records[parent].deps == {} && records[parent].parents == [] && nextId == parent + 1
      requires rank[parent] == Height(flow)
      requires SubsOk(records, rank, flow, subs, 0, base, parent)
      modifies this
      ensures Valid() && parent < nextId && parent in records && records[parent].parents == []
      ensures Mirrors(records, flow, JobNode(parent, children)) && Numbered(old(records), records, parent + 1, nextId)
      ensures |children| == |flow.children| && Placed(flow, subs, children, parent, nextId)
      ensures Outside(old(records), records, base, parent) && RankKept(old(rank), rank)
    {
      hide Building, Ranked, Mirrors, Within, SubOk, Height, RankKept, SubsOk, RootsAscending, Outside, InPlace, Placed, Numbered;
      children := [];
      NonePlaced(records, flow, subs, parent);
      OpenStored(records, {parent});
      NoneInPlace(records, flow, base, parent, nextId);
      OutsideSame(records, base, parent);
      RankKeptSame(rank);
      HeightAbove(flow);
      for i := 0 to |flow.children|
        invariant Consistent({parent}) && |children| == i && parent < nextId && parent in rank && rank[parent] == Height(flow)
        invariant InPlace(records, flow, children, base, parent, nextId)
        invariant SubsOk(records, rank, flow, subs, i, base, parent)
        invariant Outside(old(records), records, base, parent) && RankKept(old(rank), rank)
        invariant Placed(flow, subs, children, parent, nextId) && Numbered(old(records), records, parent + 1, nextId)
      {
        ghost var before, rankBefore, next := records, rank, nextId;
        SubsOkAt(records, rank, flow, subs, i, base, parent);
        var child := AddChild(flow.children[i], subs[i], parent, base, Height(flow));
        ChildInPlace(before, records, flow, subs[i], children, child, base, parent, next, nextId);
        LaterSubs(before, rankBefore, records, rank, flow, subs, i, base, parent, next, nextId, child);
        OutsideStep(old(records), before, records, base, parent, next, nextId, flow.children[i], subs[i], child);
        RankKeptTrans(old(rank), rankBefore, rank);
        RankOf(rankBefore, rank, parent);
        PlacedOneMore(flow, subs, children, child, parent, next, nextId);
        NumberedTrans(old(records), before, records, parent + 1, next, nextId);
        children := children + [child];
      }
      OpenStored(records, {parent});
      TreeInPlace(records, flow, children, base, parent, nextId);
      CloseKeeps(records, {parent}, parent);
      assert {parent} - {parent} == {};
    }

    /** One child: a sub-flow root is linked to the parent, a leaf is created with it. */
    method AddChild(def: FlowJob, sub: Option<JobNode>, parent: nat, ghost base: nat, ghost height: nat) returns (child: JobNode)
      requires Consistent({parent}) && base <= parent < nextId && parent in rank && rank[parent] == height > Height(def)
      requires SubOk(records, rank, def, sub, base, parent)
      modifies this
      ensures Consistent({parent}) && old(nextId) <= nextId && RankKept(old(rank), rank)
      ensures ChildAdded(old(records), records, def, sub, child, base, parent, old(nextId), nextId)
      ensures Numbered(old(records), records, old(nextId), nextId) && ChildCounted(def, sub, child, old(nextId), nextId)
    {
      hide Building, Ranked, Height, RankKept, Numbered;
      OpenStored(records, {parent});
      if sub.Some? {
        child := sub.value;
        SubRoot(records, rank, def, child, base, parent);
        hide SubOk, SubRootOk, ChildAdded, Mirrors, Within;
        LinkedChild(records, rank, def, child, base, parent, nextId);
        RankKeptSame(rank);
        AttachParent(child.job, parent, {parent});
        NumberedSame(old(records), records, nextId);
      } else {
        hide ChildAdded, Mirrors, Within;
        LeafChild(records, def, base, parent, nextId);
        RankKeptMore(rank, nextId, 0);
        HeightOfLeaf(def);
        var id := AddFlowJob(false, [parent], {parent}, 0);
        child := JobNode(id, []);
      }
    }
  }

  // ---- One job for each node ----

  /** The new jobs are exactly those of the tree, as many as it has nodes. */
  ghost predicate Whole(before: Store, after: Store, flow: FlowJob, node: JobNode, base: nat, next: nat) {
    Numbered(before, after, base, next) && AllJobs(node) == Interval(base, next) && next == base + Size(flow)
  }

  lemma WholeIsNew(before: Store, after: Store, flow: FlowJob, node: JobNode, base: nat, next: nat)
    requires Whole(before, after, flow, node, base, next) && forall j :: j in before ==> j < base
    ensures AllJobs(node) == after.Keys - before.Keys && |AllJobs(node)| == Size(flow)
  {
    IntervalSize(base, next);
  }

  lemma WholeBounds(before: Store, after: Store, flow: FlowJob, node: JobNode, base: nat, next: nat)
    requires Whole(before, after, flow, node, base, next)
    ensures base <= next && Within(node, base, next)
  {}

  lemma LeafCounted(flow: FlowJob, node: JobNode)
    requires flow.children == [] && node.children == []
    ensures AllJobs(node) == Interval(node.job, node.job + 1) && Size(flow) == 1
  {
    assert AllJobs(node) == {node.job};
    SmallIntervals(node.job);
  }

  /** Jobs of the sub-flows among the children. */
  ghost function SubJobs(subs: seq<Option<JobNode>>): set<nat> {
    if subs == [] then {} else SubJobs(subs[..|subs| - 1]) + match subs[|subs| - 1] case None => {} case Some(node) => AllJobs(node)
  }

  ghost function SubSize(flows: seq<FlowJob>): nat {
    if flows == [] then 0
    else SubSize(flows[..|flows| - 1]) + if flows[|flows| - 1].children == [] then 0 else Size(flows[|flows| - 1])
  }

  ghost function Leaves(flows: seq<FlowJob>): nat {
    if flows == [] then 0 else Leaves(flows[..|flows| - 1]) + if flows[|flows| - 1].children == [] then 1 else 0
  }

  lemma {:induction false} SubsAndLeaves(flows: seq<FlowJob>)
    ensures ForestSize(flows) == SubSize(flows) + Leaves(flows)
  {
    if flows != [] {
      SubsAndLeaves(flows[..|flows| - 1]);
      if flows[|flows| - 1].children == [] { assert Size(flows[|flows| - 1]) == 1; }
    }
  }

  /** The sub-flows built so far account for all new jobs. */
  ghost predicate SubsCounted(before: Store, after: Store, flow: FlowJob, subs: seq<Option<JobNode>>, base: nat, next: nat) {
    && |subs| <= |flow.children| && Numbered(before, after, base, next)
    && SubJobs(subs) == Interval(base, next) && next == base + SubSize(flow.children[..|subs|])
  }

  lemma NoneCounted(s: Store, flow: FlowJob, next: nat)
    ensures SubsCounted(s, s, flow, [], next, next)
  {
    SmallIntervals(next);
    NumberedSame(s, s, next);
  }

  lemma OneMoreFlow(flows: seq<FlowJob>, i: nat)
    requires i < |flows|
    ensures SubSize(flows[..i + 1]) == SubSize(flows[..i]) + if flows[i].children == [] then 0 else Size(flows[i])
    ensures Leaves(flows[..i + 1]) == Leaves(flows[..i]) + if flows[i].children == [] then 1 else 0
  {
    assert flows[..i + 1][..i] == flows[..i];
  }

  lemma SubCounted(first: Store, before: Store, after: Store, flow: FlowJob, subs: seq<Option<JobNode>>, node: JobNode, base: nat, next: nat, next': nat)
    requires SubsCounted(first, before, flow, subs, base, next) && |subs| < |flow.children| && flow.children[|subs|].children != []
    requires Whole(before, after, flow.children[|subs|], node, next, next')
    ensures SubsCounted(first, after, flow, subs + [Some(node)], base, next')
  {
    hide Size, AllJobs, Interval;
    OneMoreFlow(flow.children, |subs|);
    assert (subs + [Some(node)])[..|subs|] == subs;
    NumberedTrans(first, before, after, base, next, next');
    IntervalJoin(base, next, next');
  }

  lemma NoSubCounted(before: Store, after: Store, flow: FlowJob, subs: seq<Option<JobNode>>, base: nat, next: nat)
    requires SubsCounted(before, after, flow, subs, base, next) && |subs| < |flow.children| && flow.children[|subs|].children == []
    ensures SubsCounted(before, after, flow, subs + [None], base, next)
  {
    OneMoreFlow(flow.children, |subs|);
    assert (subs + [None])[..|subs|] == subs;
  }

  ghost predicate ChildCounted(def: FlowJob, sub: Option<JobNode>, child: JobNode, next: nat, next': nat) {
    && (sub.Some? <==> def.children != [])
    && if sub.Some? then child == sub.value && next' == next else child == JobNode(next, []) && next' == next + 1
  }

  /** The children in place are the sub-flows so far and leaves numbered after their parent. */
  ghost predicate Placed(flow: FlowJob, subs: seq<Option<JobNode>>, children: seq<JobNode>, parent: nat, next: nat) {
    && |children| <= |subs| == |flow.children|
    && ForestJobs(children) == SubJobs(subs[..|children|]) + Interval(parent + 1, next)
    && next == parent + 1 + Leaves(flow.children[..|children|])
  }

  lemma NonePlaced(s: Store, flow: FlowJob, subs: seq<Option<JobNode>>, parent: nat)
    requires |subs| == |flow.children|
    ensures Placed(flow, subs, [], parent, parent + 1) && Numbered(s, s, parent + 1, parent + 1)
  {
    SmallIntervals(parent + 1);
    NumberedSame(s, s, parent + 1);
  }

  lemma PlacedOneMore(flow: FlowJob, subs: seq<Option<JobNode>>, children: seq<JobNode>, child: JobNode, parent: nat, next: nat, next': nat)
    requires Placed(flow, subs, children, parent, next) && |children| < |flow.children|
    requires ChildCounted(flow.children[|children|], subs[|children|], child, next, next')
    ensures Placed(flow, subs, children + [child], parent, next')
  {
    hide AllJobs, Interval;
    var i := |children|;
    OneMoreFlow(flow.children, i);
    assert (children + [child])[..i] == children && subs[..i + 1][..i] == subs[..i];
    if subs[i].None? {
      LeafCounted(flow.children[i], child);
      IntervalJoin(parent + 1, next, next');
    }
  }

  /** Sub-flows, parent and leaves together. */
  lemma TreeCounted(first: Store, before: Store, added: Store, after: Store, flow: FlowJob, subs: seq<Option<JobNode>>, children: seq<JobNode>,
                    base: nat, parent: nat, next: nat)
    requires SubsCounted(first, before, flow, subs, base, parent) && Numbered(before, added, parent, parent + 1)
    requires Numbered(added, after, parent + 1, next)
    requires |subs| == |flow.children| == |children| && Placed(flow, subs, children, parent, next)
    ensures Whole(first, after, flow, JobNode(parent, children), base, next)
  {
    hide Interval, ForestJobs, SubJobs, SubSize, Leaves, ForestSize;
    assert subs[..|children|] == subs && flow.children[..|children|] == flow.children;
    SubsAndLeaves(flow.children);
    NumberedTrans(first, before, added, base, parent, parent + 1);
    NumberedTrans(first, added, after, base, parent + 1, next);
    IntervalJoin(base, parent, next);
    IntervalJoin(parent, parent + 1, next);
    SmallIntervals(parent);
  }

  // ---- What building a tree has done so far ----

  /** A sub-flow that is built and not yet linked to a parent. */
  ghost predicate SubOk(s: Store, rank: map<nat, nat>, def: FlowJob, sub: Option<JobNode>, lo: nat, hi: nat) {
    && (sub.Some? <==> def.children != [])
    && (sub.Some? ==> SubRootOk(s, rank, def, sub.value, lo, hi))
  }

  ghost predicate SubRootOk(s: Store, rank: map<nat, nat>, def: FlowJob, node: JobNode, lo: nat, hi: nat) {
    && Mirrors(s, def, node) && Within(node, lo, hi)
    && s[node.job].parents == [] && node.job in rank && rank[node.job] == Height(def)
  }

  /** The sub-flows from the `from`-th child on. */
  ghost predicate SubsOk(s: Store, rank: map<nat, nat>, flow: FlowJob, subs: seq<Option<JobNode>>, from: nat, lo: nat, hi: nat) {
    |subs| <= |flow.children| && forall k :: from <= k < |subs| ==> SubOk(s, rank, flow.children[k], subs[k], lo, hi)
  }

  ghost predicate RootsAscending(subs: seq<Option<JobNode>>, next: nat) {
    && (forall i, k :: 0 <= i < k < |subs| && subs[i].Some? && subs[k].Some? ==> subs[i].value.job < subs[k].value.job)
    && (forall k :: 0 <= k < |subs| && subs[k].Some? ==> subs[k].value.job < next)
  }

  /** A child in place: a sub-flow from before its parent, or a leaf from after it. */
  ghost predicate ChildOk(s: Store, def: FlowJob, node: JobNode, base: nat, parent: nat, next: nat) {
    Mirrors(s, def, node) && ChildOf(s, node, parent) && (Within(node, base, parent) || (node.children == [] && parent < node.job < next))
  }

  /** The children linked so far are exactly what the parent waits for. */
  ghost predicate InPlace(s: Store, flow: FlowJob, children: seq<JobNode>, base: nat, parent: nat, next: nat) {
    && parent in s && s[parent].deps == Jobs(children) && s[parent].parents == [] && |children| <= |flow.children|
    && forall k :: 0 <= k < |children| ==> ChildOk(s, flow.children[k], children[k], base, parent, next)
  }

  /** Jobs below `base` are as they were; new jobs come after the parent. */
  ghost predicate Outside(before: Store, after: Store, base: nat, parent: nat) {
    && (forall j :: j in before && j < base ==> j in after && after[j] == before[j])
    && (forall j :: j in before ==> j in after)
    && (forall j :: j in after && j !in before ==> j > parent)
  }

  /** What adding one child does. */
  ghost predicate ChildAdded(before: Store, after: Store, def: FlowJob, sub: Option<JobNode>, child: JobNode, base: nat, parent: nat, next: nat, next': nat) {
    && parent in before && parent in after
    && after[parent].deps == before[parent].deps + {child.job} && after[parent].parents == before[parent].parents
    && ChildOk(after, def, child, base, parent, next')
    && (if sub.Some? then child == sub.value && base <= child.job else child.job == next)
    && AllBut(before, after, {parent, child.job}) && Disturbs(before, after, parent)
    && (forall j :: j in after && j !in before ==> j == next)
  }

  /** Everything but the listed jobs is as it was. */
  ghost predicate AllBut(before: Store, after: Store, changed: set<nat>) {
    forall j :: j in before && j !in changed ==> j in after && after[j] == before[j]
  }

  /** No job but `parent` changes in more than its parent links. */
  ghost predicate Disturbs(before: Store, after: Store, parent: nat) {
    forall j :: j in before && j != parent ==> j in after && Untouched(after[j], before[j])
  }

  ghost predicate RankKept(before: map<nat, nat>, after: map<nat, nat>) {
    forall j :: j in before ==> j in after && after[j] == before[j]
  }

  lemma RankKeptTrans(a: map<nat, nat>, b: map<nat, nat>, c: map<nat, nat>)
    requires RankKept(a, b) && RankKept(b, c)
    ensures RankKept(a, c)
  {}

  lemma SubsFrame(before: Store, rankBefore: map<nat, nat>, after: Store, rank: map<nat, nat>, flow: FlowJob, subs: seq<Option<JobNode>>,
                  base: nat, next: nat, next': nat)
    requires |subs| <= |flow.children| && forall k :: 0 <= k < |subs| ==> SubOk(before, rankBefore, flow.children[k], subs[k], base, next)
    requires (forall j :: j in before ==> j in after && after[j] == before[j]) && next <= next'
    requires RankKept(rankBefore, rank)
    ensures forall k :: 0 <= k < |subs| ==> SubOk(after, rank, flow.children[k], subs[k], base, next')
  {
    forall k | 0 <= k < |subs| ensures SubOk(after, rank, flow.children[k], subs[k], base, next') {
      assert SubOk(before, rankBefore, flow.children[k], subs[k], base, next);
      if subs[k].Some? {
        MirrorsFrame(before, after, flow.children[k], subs[k].value, base, next);
        }
    }
  }

  lemma AddJobAlone(s: Store, id: nat, wait: bool)
    ensures AddJob(s, id, wait, []) == s[id := Record(if wait then WaitingChildren else Waiting, {}, {}, [])]
  {}

  /** Sub-flows stay in place when their parent is added. */
  lemma ParentAdded(before: Store, rankBefore: map<nat, nat>, after: Store, rank: map<nat, nat>, flow: FlowJob, subs: seq<Option<JobNode>>,
                    base: nat, id: nat)
    requires |subs| == |flow.children| && SubsOk(before, rankBefore, flow, subs, 0, base, id)
    requires id !in before && after == before[id := Record(WaitingChildren, {}, {}, [])]
    requires rankBefore.Keys == before.Keys && rank == rankBefore[id := Height(flow)]
    ensures SubsOk(after, rank, flow, subs, 0, base, id)
    ensures RankKept(rankBefore, rank) && after[id].deps == {} && after[id].parents == []
  {
    SubsFrame(before, rankBefore, after, rank, flow, subs, base, id, id);
  }

  lemma RankOf(before: map<nat, nat>, after: map<nat, nat>, id: nat)
    requires RankKept(before, after) && id in before
    ensures id in after && after[id] == before[id]
  {}

  lemma GrownTrans(a: Store, b: Store, c: Store, d: Store, base: nat, id: nat)
    requires Grown(a, b, base) && id !in b && c == b[id := Record(WaitingChildren, {}, {}, [])] && base <= id
    requires (forall j :: j in a ==> j < base) && Outside(c, d, base, id)
    ensures Grown(a, d, base)
  {}

  lemma RankKeptSame(rank: map<nat, nat>)
    ensures RankKept(rank, rank)
  {}

  lemma RankKeptMore(rank: map<nat, nat>, id: nat, h: nat)
    requires id !in rank
    ensures RankKept(rank, rank[id := h])
  {}

  lemma OutsideSame(s: Store, base: nat, parent: nat)
    ensures Outside(s, s, base, parent)
  {}

  lemma HeightAbove(flow: FlowJob)
    ensures forall def :: def in flow.children ==> Height(def) < Height(flow)
  {}

  lemma HeightOfLeaf(def: FlowJob)
    requires def.children == []
    ensures Height(def) == 0
  {}

  lemma NothingYet(s: Store, rank: map<nat, nat>, flow: FlowJob, next: nat)
    ensures SubsOk(s, rank, flow, [], 0, next, next) && RootsAscending([], next) && Grown(s, s, next) && RankKept(rank, rank)
  {}

  lemma NoneInPlace(s: Store, flow: FlowJob, base: nat, parent: nat, next: nat)
    requires parent in s && s[parent].deps == {} && s[parent].parents == []
    ensures InPlace(s, flow, [], base, parent, next)
  {}

  lemma NoSub(s: Store, rank: map<nat, nat>, flow: FlowJob, subs: seq<Option<JobNode>>, lo: nat, hi: nat)
    requires |subs| < |flow.children| && flow.children[|subs|].children == [] && SubsOk(s, rank, flow, subs, 0, lo, hi) && RootsAscending(subs, hi)
    ensures SubsOk(s, rank, flow, subs + [None], 0, lo, hi) && RootsAscending(subs + [None], hi)
  {}

  /** Another tree was built beside the sub-flows. */
  lemma SubBuilt(first: Store, before: Store, rankFirst: map<nat, nat>, rankBefore: map<nat, nat>, after: Store, rank: map<nat, nat>,
                 flow: FlowJob, subs: seq<Option<JobNode>>, node: JobNode, base: nat, next: nat, next': nat)
    requires |subs| < |flow.children| && flow.children[|subs|].children != [] && base <= next <= next'
    requires SubsOk(before, rankBefore, flow, subs, 0, base, next) && RootsAscending(subs, next)
    requires Grown(first, before, base) && Grown(before, after, next) && RankKept(rankFirst, rankBefore) && RankKept(rankBefore, rank)
    requires SubRootOk(after, rank, flow.children[|subs|], node, next, next')
    ensures SubsOk(after, rank, flow, subs + [Some(node)], 0, base, next') && RootsAscending(subs + [Some(node)], next')
    ensures Grown(first, after, base) && RankKept(rankFirst, rank)
  {
    SubsFrame(before, rankBefore, after, rank, flow, subs, base, next, next');
    assert Within(node, next, next') && node.job >= next;
    hide Mirrors;
  }

  lemma SubsOkAt(s: Store, rank: map<nat, nat>, flow: FlowJob, subs: seq<Option<JobNode>>, i: nat, lo: nat, hi: nat)
    requires i < |subs| && SubsOk(s, rank, flow, subs, i, lo, hi)
    ensures i < |flow.children| && SubOk(s, rank, flow.children[i], subs[i], lo, hi)
  {}

  lemma SubRoot(s: Store, rank: map<nat, nat>, def: FlowJob, node: JobNode, lo: nat, hi: nat)
    requires SubOk(s, rank, def, Some(node), lo, hi)
    ensures SubRootOk(s, rank, def, node, lo, hi) && lo <= node.job < hi
    ensures node.job in s && s[node.job].state != Completed && s[node.job].parents == [] && node.job in rank && rank[node.job] == Height(def)
  {}

  lemma LinkedChild(s: Store, rank: map<nat, nat>, def: FlowJob, node: JobNode, base: nat, parent: nat, next: nat)
    requires SubRootOk(s, rank, def, node, base, parent) && parent in s && parent < next && base <= node.job < parent
    ensures ChildAdded(s, Attach(s, node.job, parent), def, Some(node), node, base, parent, next, next)
  {
    var s' := Attach(s, node.job, parent);
    assert Disturbs(s, s', parent);
    MirrorsFrame(s, s', def, node, base, parent);
    hide Mirrors;
  }

  lemma LeafChild(s: Store, def: FlowJob, base: nat, parent: nat, next: nat)
    requires def.children == [] && parent in s && parent < next && forall j :: j in s ==> j < next
    ensures ChildAdded(s, AddJob(s, next, false, [parent]), def, None, JobNode(next, []), base, parent, next, next + 1)
  {
    RegisterEffect(s, [parent], next);
    assert Jobs([]) == {};
    hide RegisterDependencies;
  }

  lemma ChildInPlace(before: Store, after: Store, flow: FlowJob, sub: Option<JobNode>, children: seq<JobNode>, child: JobNode, base: nat, parent: nat,
                     next: nat, next': nat)
    requires |children| < |flow.children| && next <= next' && InPlace(before, flow, children, base, parent, next)
    requires ChildAdded(before, after, flow.children[|children|], sub, child, base, parent, next, next')
    ensures InPlace(after, flow, children + [child], base, parent, next')
  {
    forall k | 0 <= k < |children| ensures ChildOk(after, flow.children[k], children[k], base, parent, next') {
      ChildFrame(before, after, flow.children[k], children[k], base, parent, next, next');
    }
    hide ChildOk, AllBut, Disturbs;
    assert Jobs(children + [child]) == Jobs(children) + {child.job};
  }

  lemma ChildFrame(before: Store, after: Store, def: FlowJob, node: JobNode, base: nat, parent: nat, next: nat, next': nat)
    requires ChildOk(before, def, node, base, parent, next) && Disturbs(before, after, parent) && next <= next'
    ensures ChildOk(after, def, node, base, parent, next')
  {
    if Within(node, base, parent) {
      MirrorsFrame(before, after, def, node, base, parent);
    } else {
      MirrorsFrame(before, after, def, node, node.job, node.job + 1);
    }
  }

  lemma LaterSubs(before: Store, rankBefore: map<nat, nat>, after: Store, rank: map<nat, nat>, flow: FlowJob, subs: seq<Option<JobNode>>,
                  i: nat, base: nat, parent: nat, next: nat, next': nat, child: JobNode)
    requires i < |subs| && parent < next && RootsAscending(subs, parent) && SubsOk(before, rankBefore, flow, subs, i, base, parent)
    requires ChildAdded(before, after, flow.children[i], subs[i], child, base, parent, next, next') && RankKept(rankBefore, rank)
    ensures SubsOk(after, rank, flow, subs, i + 1, base, parent)
  {
    forall k | i + 1 <= k < |subs| ensures SubOk(after, rank, flow.children[k], subs[k], base, parent) {
      assert SubOk(before, rankBefore, flow.children[k], subs[k], base, parent);
      if subs[k].Some? {
        MirrorsFrame(before, after, flow.children[k], subs[k].value, base, parent);
        assert subs[k].value.job !in {parent, child.job};
      }
    }
  }

  lemma OutsideStep(first: Store, before: Store, after: Store, base: nat, parent: nat, next: nat, next': nat,
                    def: FlowJob, sub: Option<JobNode>, child: JobNode)
    requires Outside(first, before, base, parent) && ChildAdded(before, after, def, sub, child, base, parent, next, next')
    requires base <= parent < next
    ensures Outside(first, after, base, parent)
  {
    hide ChildOk;
  }

  lemma TreeInPlace(s: Store, flow: FlowJob, children: seq<JobNode>, base: nat, parent: nat, next: nat)
    requires flow.children != [] && |children| == |flow.children| && InPlace(s, flow, children, base, parent, next)
    requires s[parent].state == WaitingChildren && s[parent].depsDone == {} && base <= parent < next
    ensures Mirrors(s, flow, JobNode(parent, children))
    ensures s[parent].parents == [] && exists d :: d in s[parent].deps
  {
    assert children[0].job in s[parent].deps;
    forall k | 0 <= k < |children| ensures Mirrors(s, flow.children[k], children[k]) && ChildOf(s, children[k], parent) {
      assert ChildOk(s, flow.children[k], children[k], base, parent, next);
    }
  }

  /** The old jobs are as they were, and new ones are numbered from `next`. */
  ghost predicate Grown(before: Store, after: Store, next: nat) {
    && (forall j :: j in before ==> j in after && after[j] == before[j])
    && (forall j :: j in after && j !in before ==> j >= next)
  }

  lemma AttachRanked(s: Store, rank: map<nat, nat>, child: nat, parent: nat)
    requires Ranked(s, rank) && child in s && parent in s && child != parent && child in rank && parent in rank && rank[child] < rank[parent]
    ensures Ranked(Attach(s, child, parent), rank) && Attach(s, child, parent).Keys == s.Keys
  {
    var s' := Attach(s, child, parent);
    forall p, d | p in s' && d in s'[p].deps ensures Lower(rank, d, p) {
      assert p in s && s'[p].deps == if p == parent then s[p].deps + {child} else s[p].deps;
      assert d in s[p].deps || (p == parent && d == child);
    }
  }

  lemma AddJobRanked(s: Store, rank: map<nat, nat>, open: set<nat>, id: nat, wait: bool, parents: seq<nat>, height: nat)
    requires Ranked(s, rank) && Building(s, open) && id !in s && rank.Keys == s.Keys
    requires forall p :: p in parents ==> p in s && rank[p] > height
    ensures Ranked(AddJob(s, id, wait, parents), rank[id := height]) && AddJob(s, id, wait, parents).Keys == s.Keys + {id}
  {
    RegisterEffect(s, parents, id);
    var s', rank' := AddJob(s, id, wait, parents), rank[id := height];
    hide Building, RegisterDependencies;
    forall p, d | p in s' && d in s'[p].deps ensures Lower(rank', d, p) {
      assert p in s && (d in s[p].deps || (d == id && p in parents));
      assert d in s[p].deps ==> Lower(rank, d, p);
    }
  }
}
