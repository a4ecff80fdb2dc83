/** DAGs in memory: each node is created after all its dependents and registered with every one of them. */
module TestDagFlows {
  import opened Wrappers
  import opened Sequences
  import opened FlowRelease
  import opened Dag
  import DagCycle
  import opened DagDependents
  import DagSubmission
  import opened TestFlows

  // ---- The jobs made so far ----

  /** The job of a node waits for the jobs of those of its dependencies that exist, and is linked to each parent once. */
  ghost predicate NodeJobOk(s: Store, jobs: map<string, nat>, n: Node) {
    && n.name in jobs && jobs[n.name] in s
    && s[jobs[n.name]].deps == (set d | d in n.deps && d in jobs :: jobs[d]) && s[jobs[n.name]].depsDone == {}
    && s[jobs[n.name]].state == (if n.deps == [] then Waiting else WaitingChildren) && NoRepeats(s[jobs[n.name]].parents)
  }

  ghost predicate Injective(jobs: map<string, nat>) {
    forall a, b :: a in jobs && b in jobs && jobs[a] == jobs[b] ==> a == b
  }

  /** The nodes from position `from` on have their jobs, numbered from `base`. */
  ghost predicate Made(s: Store, rank: map<nat, nat>, sorted: seq<Node>, from: nat, jobs: map<string, nat>, base: nat, next: nat) {
    && from <= |sorted| && jobs.Keys == Names(sorted[from..]) && Injective(jobs)
    && (forall k :: from <= k < |sorted| ==> NodeJobOk(s, jobs, sorted[k]))
    && (forall k :: from <= k < |sorted| ==> sorted[k].name in jobs && jobs[sorted[k].name] in rank && rank[jobs[sorted[k].name]] == k)
    && (forall a :: a in jobs ==> base <= jobs[a] < next)
  }

  ghost function OpenJobs(sorted: seq<Node>, from: nat, jobs: map<string, nat>): set<nat> {
    set k | from <= k < |sorted| && sorted[k].deps != [] && sorted[k].name in jobs :: jobs[sorted[k].name]
  }

  /** All dependents of the next node have their jobs. */
  lemma DependentsMade(nodes: seq<Node>, sorted: seq<Node>, i: nat, p: string) returns (k: nat)
    requires DistinctNames(sorted) && DepsFirst(sorted) && i < |sorted| && DependsOn(nodes, sorted[i].name, p)
    requires forall n :: n in nodes ==> n in sorted
    ensures i < k < |sorted| && sorted[k].name == p && sorted[i].name in sorted[k].deps
  {
    var n :| n in nodes && n.name == p && sorted[i].name in n.deps;
    k :| 0 <= k < |sorted| && sorted[k] == n;
    var j :| 0 <= j < k && sorted[j].name == sorted[i].name;
    assert i == j;
  }

  lemma NodeAt(nodes: seq<Node>, sorted: seq<Node>, k: nat, d: string)
    requires k < |sorted| && (forall n :: n in sorted ==> n in nodes) && d in sorted[k].deps
    ensures DependsOn(nodes, d, sorted[k].name)
  {
    assert sorted[k] in sorted;
  }

  /** The parents of the next job: the jobs of its dependents. */
  ghost predicate ParentsOf(parents: seq<nat>, names: seq<string>, jobs: map<string, nat>) {
    |parents| == |names| && forall k :: 0 <= k < |names| ==> names[k] in jobs && parents[k] == jobs[names[k]]
  }

  lemma NotLater(sorted: seq<Node>, i: nat, j: nat)
    requires DistinctNames(sorted) && j <= i < |sorted|
    ensures sorted[j].name !in Names(sorted[i + 1..])
  {
    forall n | n in sorted[i + 1..] ensures n.name != sorted[j].name {
      var k :| 0 <= k < |sorted[i + 1..]| && sorted[i + 1..][k] == n;
      assert sorted[i + 1 + k] == n;
    }
  }

  lemma DepsNotYet(sorted: seq<Node>, i: nat, jobs: map<string, nat>)
    requires DistinctNames(sorted) && DepsFirst(sorted) && i < |sorted| && jobs.Keys == Names(sorted[i + 1..])
    ensures sorted[i].name !in jobs && forall d :: d in sorted[i].deps ==> d !in jobs && d != sorted[i].name
  {
    NotLater(sorted, i, i);
    forall d | d in sorted[i].deps ensures d !in jobs && d != sorted[i].name {
      var j :| 0 <= j < i && sorted[j].name == d;
      NotLater(sorted, i, j);
    }
  }

  /** Creating the next node's job with its dependents as parents. */
  lemma MadeOneMore(s: Store, s': Store, rank: map<nat, nat>, sorted: seq<Node>, i: nat, jobs: map<string, nat>, base: nat, next: nat,
                    names: seq<string>, parents: seq<nat>)
    requires i < |sorted| && DistinctNames(sorted) && DepsFirst(sorted) && Made(s, rank, sorted, i + 1, jobs, base, next) && base <= next
    requires ParentsOf(parents, names, jobs) && next !in s && next !in rank
    requires forall k :: i < k < |sorted| ==> (sorted[k].name in names <==> sorted[i].name in sorted[k].deps)
    requires s' == AddJob(s, next, sorted[i].deps != [], parents) && NoRepeats(names)
    ensures Made(s', rank[next := i], sorted, i, jobs[sorted[i].name := next], base, next + 1)
    ensures OpenJobs(sorted, i, jobs[sorted[i].name := next]) == OpenJobs(sorted, i + 1, jobs) + (if sorted[i].deps != [] then {next} else {})
  {
    DepsNotYet(sorted, i, jobs);
    OpenOneMore(sorted, i, jobs, next);
    RegisterEffect(s, parents, next);
    ParentsOnce(parents, names, jobs);
    NodeJobsOneMore(s, s', rank, sorted, i, jobs, base, next, names, parents);
    hide RegisterDependencies, OpenJobs, DepsFirst, DistinctNames, NodeJobOk, AddJob, Names, Injective, ParentsOf, NoRepeats;
    NamesOneMore(sorted, i);
    NumbersOneMore(jobs, sorted[i].name, next);
    forall k | i <= k < |sorted|
      ensures sorted[k].name in jobs[sorted[i].name := next] && jobs[sorted[i].name := next][sorted[k].name] in rank[next := i]
      ensures rank[next := i][jobs[sorted[i].name := next][sorted[k].name]] == k
    {
      if k > i { assert sorted[k].name in jobs; }
    }
  }

  lemma ParentsOnce(parents: seq<nat>, names: seq<string>, jobs: map<string, nat>)
    requires ParentsOf(parents, names, jobs) && NoRepeats(names) && Injective(jobs)
    ensures NoRepeats(parents)
  {}

  lemma NamesOneMore(sorted: seq<Node>, i: nat)
    requires i < |sorted|
    ensures Names(sorted[i..]) == {sorted[i].name} + Names(sorted[i + 1..])
  {
    assert sorted[i..] == [sorted[i]] + sorted[i + 1..];
  }

  lemma NumbersOneMore(jobs: map<string, nat>, name: string, next: nat)
    requires Injective(jobs) && name !in jobs && forall a :: a in jobs ==> jobs[a] < next
    ensures Injective(jobs[name := next])
  {}

  lemma NodeJobsOneMore(s: Store, s': Store, rank: map<nat, nat>, sorted: seq<Node>, i: nat, jobs: map<string, nat>, base: nat, next: nat,
                        names: seq<string>, parents: seq<nat>)
    requires i < |sorted| && Made(s, rank, sorted, i + 1, jobs, base, next)
    requires sorted[i].name !in jobs && forall d :: d in sorted[i].deps ==> d !in jobs && d != sorted[i].name
    requires ParentsOf(parents, names, jobs) && next !in s && NoRepeats(parents)
    requires forall k :: i < k < |sorted| ==> (sorted[k].name in names <==> sorted[i].name in sorted[k].deps)
    requires s'.Keys == s.Keys + {next} && s'[next] == Record(if sorted[i].deps != [] then WaitingChildren else Waiting, {}, {}, parents)
    requires forall p :: p in s ==> s'[p] == if p in parents then s[p].(deps := s[p].deps + {next}) else s[p]
    ensures forall k :: i <= k < |sorted| ==> NodeJobOk(s', jobs[sorted[i].name := next], sorted[k])
  {
    forall k | i <= k < |sorted| ensures NodeJobOk(s', jobs[sorted[i].name := next], sorted[k]) {
      if k > i {
        assert NodeJobOk(s, jobs, sorted[k]);
        hide NodeJobOk, ParentsOf;
        assert sorted[k].name in jobs;
        NodeJobKept(s, s', jobs, sorted[k], sorted[i].name, next, names, parents);
      }
    }
  }

  lemma OpenOneMore(sorted: seq<Node>, i: nat, jobs: map<string, nat>, id: nat)
    requires i < |sorted| && DistinctNames(sorted) && sorted[i].name !in jobs
    ensures OpenJobs(sorted, i, jobs[sorted[i].name := id]) == OpenJobs(sorted, i + 1, jobs) + (if sorted[i].deps != [] then {id} else {})
  {
    var jobs' := jobs[sorted[i].name := id];
    forall k | i < k < |sorted| ensures sorted[k].name != sorted[i].name {}
    forall x | x in OpenJobs(sorted, i + 1, jobs) ensures x in OpenJobs(sorted, i, jobs') {
      var k :| i + 1 <= k < |sorted| && sorted[k].deps != [] && sorted[k].name in jobs && x == jobs[sorted[k].name];
      assert jobs'[sorted[k].name] == x;
    }
  }

  /** A job made earlier gains the new one exactly if its node depends on the new node. */
  lemma NodeJobKept(s: Store, s': Store, jobs: map<string, nat>, n: Node, name: string, id: nat, names: seq<string>, parents: seq<nat>)
    requires NodeJobOk(s, jobs, n) && name !in jobs && n.name != name && Injective(jobs) && ParentsOf(parents, names, jobs)
    requires n.name in names <==> name in n.deps
    requires s'.Keys == s.Keys + {id} && id !in s
    requires forall p :: p in s ==> s'[p] == if p in parents then s[p].(deps := s[p].deps + {id}) else s[p]
    ensures NodeJobOk(s', jobs[name := id], n)
  {
    var job, jobs' := jobs[n.name], jobs[name := id];
    assert job in parents <==> n.name in names by {
      if n.name in names {
        var k :| 0 <= k < |names| && names[k] == n.name;
        assert parents[k] == job;
      }
      if job in parents {
        var k :| 0 <= k < |parents| && parents[k] == job;
        assert names[k] == n.name;
      }
    }
    var before := set d | d in n.deps && d in jobs :: jobs[d];
    var after := set d | d in n.deps && d in jobs' :: jobs'[d];
    assert forall d :: d in n.deps && d in jobs ==> jobs'[d] == jobs[d];
    assert name in n.deps ==> id in after by { if name in n.deps { assert jobs'[name] == id; } }
    forall x | x in before ensures x in after {
      var d :| d in n.deps && d in jobs && x == jobs[d];
      assert jobs'[d] == x;
    }
    assert after == before + (if name in n.deps then {id} else {});
  }

  /** Every open parent has its children once all nodes are made. */
  lemma AllClosed(s: Store, rank: map<nat, nat>, sorted: seq<Node>, jobs: map<string, nat>, base: nat, next: nat)
    requires Made(s, rank, sorted, 0, jobs, base, next) && DepsFirst(sorted)
    ensures forall p :: p in OpenJobs(sorted, 0, jobs) ==> p in s && exists d :: d in s[p].deps
  {
    assert sorted[0..] == sorted;
    forall p | p in OpenJobs(sorted, 0, jobs) ensures p in s && exists d :: d in s[p].deps {
      var k :| 0 <= k < |sorted| && sorted[k].deps != [] && sorted[k].name in jobs && p == jobs[sorted[k].name];
      assert NodeJobOk(s, jobs, sorted[k]);
      var d := sorted[k].deps[0];
      assert d in sorted[k].deps;
      var j :| 0 <= j < k && sorted[j].name == d;
      assert sorted[j] in sorted && d in jobs && jobs[d] in s[p].deps;
    }
  }

  lemma CloseAll(s: Store, open: set<nat>)
    requires Building(s, open) && forall p :: p in open ==> p in s && exists d :: d in s[p].deps
    ensures Building(s, {})
  {
    forall p | p in s ensures GatedRecord(s[p]) {
      if p in open { assert Missing(s[p]); }
    }
  }

  // ---- The whole DAG ----

  method JobsOf(names: seq<string>, jobs: map<string, nat>) returns (parents: seq<nat>)
    requires forall n :: n in names ==> n in jobs
    ensures ParentsOf(parents, names, jobs)
  {
    parents := [];
    for k := 0 to |names|
      invariant ParentsOf(parents, names[..k], jobs)
    {
      assert names[k] in names;
      parents := parents + [jobs[names[k]]];
    }
    assert names[..|names|] == names;
  }

  ghost predicate ParentReady(sorted: seq<Node>, i: nat, jobs: map<string, nat>, rank: map<nat, nat>, p: string) {
    p in jobs && jobs[p] in OpenJobs(sorted, i + 1, jobs) && jobs[p] in rank && rank[jobs[p]] > i
  }

  /** The dependents of the next node, as the jobs that are made already and wait for more children. */
  lemma ParentsReady(nodes: seq<Node>, sorted: seq<Node>, i: nat, dependents: map<string, seq<string>>, jobs: map<string, nat>,
                     s: Store, rank: map<nat, nat>, base: nat, next: nat)
    requires DistinctNames(sorted) && DepsFirst(sorted) && i < |sorted| && (forall n :: n in nodes <==> n in sorted)
    requires DependentsOf(nodes, dependents) && Made(s, rank, sorted, i + 1, jobs, base, next)
    ensures sorted[i].name in dependents && (NoListRepeats(dependents) ==> NoRepeats(dependents[sorted[i].name]))
    ensures forall p :: p in dependents[sorted[i].name] ==> ParentReady(sorted, i, jobs, rank, p)
    ensures forall k :: i < k < |sorted| ==> (sorted[k].name in dependents[sorted[i].name] <==> sorted[i].name in sorted[k].deps)
  {
    assert sorted[i] in sorted && sorted[i] in nodes;
    var name := sorted[i].name;
    forall p | p in dependents[name]
      ensures ParentReady(sorted, i, jobs, rank, p)
    {
      var k := DependentsMade(nodes, sorted, i, p);
      assert sorted[k].name in jobs && sorted[k].deps != [];
    }
    forall k | i < k < |sorted| ensures sorted[k].name in dependents[name] <==> name in sorted[k].deps {
      if name in sorted[k].deps { NodeAt(nodes, sorted, k, name); }
      if sorted[k].name in dependents[name] {
        var m := DependentsMade(nodes, sorted, i, sorted[k].name);
        assert m == k;
      }
    }
  }

  lemma NothingMade(s: Store, rank: map<nat, nat>, sorted: seq<Node>, base: nat)
    ensures Made(s, rank, sorted, |sorted|, map[], base, base) && OpenJobs(sorted, |sorted|, map[]) == {}
  {}

  /** Creates the job of one node. */
  method AddNode(fp: FlowProducer, nodes: seq<Node>, sorted: seq<Node>, i: nat, dependents: map<string, seq<string>>, jobs: map<string, nat>,
                 ghost base: nat)
    returns (jobs': map<string, nat>)
    requires fp.Consistent(OpenJobs(sorted, i + 1, jobs)) && base <= fp.nextId
    requires DistinctNames(sorted) && DepsFirst(sorted) && i < |sorted| && (forall n :: n in nodes <==> n in sorted)
    requires DependentsOf(nodes, dependents) && NoListRepeats(dependents) && Made(fp.records, fp.rank, sorted, i + 1, jobs, base, fp.nextId)
    modifies fp
    ensures fp.Consistent(OpenJobs(sorted, i, jobs')) && Made(fp.records, fp.rank, sorted, i, jobs', base, fp.nextId)
    ensures base <= fp.nextId && Later(old(fp.records), fp.records, OpenJobs(sorted, i + 1, jobs), old(fp.nextId))
    ensures jobs'.Keys == jobs.Keys + {sorted[i].name} && forall n :: n in jobs ==> jobs'[n] == jobs[n]
  {
    hide Building, Ranked, DistinctNames, DepsFirst, DependentsOf, Made, OpenJobs, NoListRepeats, NoRepeats;
    var node := sorted[i];
    ParentsReady(nodes, sorted, i, dependents, jobs, fp.records, fp.rank, base, fp.nextId);
    NotMadeYet(fp.records, fp.rank, sorted, i, jobs, base, fp.nextId);
    var names := dependents[node.name];
    var parents := JobsOf(names, jobs);
    assert forall p :: p in parents ==> exists k :: 0 <= k < |names| && p == jobs[names[k]] && names[k] in names;
    ghost var before, rankBefore, next := fp.records, fp.rank, fp.nextId;
    AddJobChanges(before, next, node.deps != [], parents, OpenJobs(sorted, i + 1, jobs));
    MadeOneMore(before, AddJob(before, next, node.deps != [], parents), rankBefore, sorted, i, jobs, base, next, names, parents);
    var id := fp.AddFlowJob(node.deps != [], parents, OpenJobs(sorted, i + 1, jobs), i);
    jobs' := jobs[node.name := id];
    assert OpenJobs(sorted, i + 1, jobs) + {} == OpenJobs(sorted, i + 1, jobs);
  }

  lemma NotMadeYet(s: Store, rank: map<nat, nat>, sorted: seq<Node>, i: nat, jobs: map<string, nat>, base: nat, next: nat)
    requires DistinctNames(sorted) && DepsFirst(sorted) && i < |sorted| && Made(s, rank, sorted, i + 1, jobs, base, next)
    ensures sorted[i].name !in jobs
  {
    DepsNotYet(sorted, i, jobs);
  }

  /** Only the jobs in `open` changed, and new ones are numbered from `next`. */
  ghost predicate Later(before: Store, after: Store, open: set<nat>, next: nat) {
    && (forall j :: j in before && j !in open ==> j in after && after[j] == before[j])
    && (forall j :: j in before ==> j in after)
    && (forall j :: j in after && j !in before ==> j >= next)
  }

  lemma AddJobChanges(s: Store, id: nat, wait: bool, parents: seq<nat>, open: set<nat>)
    requires forall p :: p in parents ==> p in open
    requires id !in s
    ensures Later(s, AddJob(s, id, wait, parents), open, id)
  {
    RegisterEffect(s, parents, id);
    hide RegisterDependencies;
  }

  lemma GrownLater(first: Store, before: Store, after: Store, open: set<nat>, base: nat, next: nat)
    requires Grown(first, before, base) && Later(before, after, open, next) && base <= next
    requires (forall j :: j in first ==> j < base) && forall p :: p in open ==> p >= base
    ensures Grown(first, after, base)
  {}

  lemma OpenAreNew(s: Store, rank: map<nat, nat>, sorted: seq<Node>, i: nat, jobs: map<string, nat>, base: nat, next: nat)
    requires Made(s, rank, sorted, i, jobs, base, next)
    ensures forall p :: p in OpenJobs(sorted, i, jobs) ==> p >= base
  {}

  /** addDAG: refuses exactly the invalid graphs, leaving the store alone; otherwise one new job per node waits for
      exactly the jobs of its dependencies, and a node without any can run.
  */
  method AddDag(fp: FlowProducer, nodes: seq<Node>) returns (r: Result<map<string, nat>, GraphError>)
    requires fp.Valid()
    modifies fp
    ensures fp.Valid() && (r.Ok? <==> ValidDag(nodes))
    ensures r.Err? ==> DagCycle.Explains(nodes, r.error) && fp.records == old(fp.records)
    ensures r.Ok? ==> Creates(old(fp.records), fp.records)
    ensures r.Ok? ==> Grown(old(fp.records), fp.records, old(fp.nextId)) && r.value.Keys == Names(nodes) && Injective(r.value)
    ensures r.Ok? ==> forall n :: n in nodes ==> NodeJobOk(fp.records, r.value, n) && r.value[n.name] >= old(fp.nextId)
  {
    var topo := DagCycle.TopoSort(nodes);
    if topo.Err? { return Err(topo.error); }
    var sorted := topo.value;
    DagSubmission.SameNodes(nodes, sorted);
    hide Building, Ranked, DistinctNames, DepsFirst, DependentsOf, Made, OpenJobs, Grown, Acyclic, NodeJobOk, NoListRepeats, Creates;
    var dependents := Dependents(nodes, true);
    var jobs: map<string, nat> := map[];
    ghost var base := fp.nextId;
    NothingMade(fp.records, fp.rank, sorted, base);
    GrownSame(fp.records, base);
    var i: nat := |sorted|;
    while i > 0
      invariant i <= |sorted| && base <= fp.nextId && fp.Consistent(OpenJobs(sorted, i, jobs))
      invariant Made(fp.records, fp.rank, sorted, i, jobs, base, fp.nextId) && Grown(old(fp.records), fp.records, base)
    {
      i := i - 1;
      ghost var before, next, open := fp.records, fp.nextId, OpenJobs(sorted, i + 1, jobs);
      OpenAreNew(fp.records, fp.rank, sorted, i + 1, jobs, base, fp.nextId);
      jobs := AddNode(fp, nodes, sorted, i, dependents, jobs, base);
      GrownLater(old(fp.records), before, fp.records, open, base, next);
    }
    AllClosed(fp.records, fp.rank, sorted, jobs, base, fp.nextId);
    CloseAll(fp.records, OpenJobs(sorted, 0, jobs));
    MadeAll(fp.records, fp.rank, nodes, sorted, jobs, base, fp.nextId);
    GrownCreates(old(fp.records), fp.records, fp.rank, base);
    r := Ok(jobs);
  }

  lemma GrownSame(s: Store, base: nat)
    ensures Grown(s, s, base)
  {}

  lemma MadeAll(s: Store, rank: map<nat, nat>, nodes: seq<Node>, sorted: seq<Node>, jobs: map<string, nat>, base: nat, next: nat)
    requires Made(s, rank, sorted, 0, jobs, base, next) && forall n :: n in nodes <==> n in sorted
    ensures jobs.Keys == Names(nodes) && Injective(jobs)
    ensures forall n :: n in nodes ==> NodeJobOk(s, jobs, n) && jobs[n.name] >= base
  {
    assert sorted[0..] == sorted;
    assert Names(sorted) == Names(nodes);
    forall n | n in nodes ensures NodeJobOk(s, jobs, n) && jobs[n.name] >= base {
      var k :| 0 <= k < |sorted| && sorted[k] == n;
      assert NodeJobOk(s, jobs, sorted[k]);
    }
  }
}
