/** In-memory flows: a parent's set of dependencies, the ones that are done, and its release when none is pending. */
module FlowRelease {
  datatype FlowState = Waiting | Active | Completed | Failed | WaitingChildren

  /** A job of a flow; jobs are numbered across queues. */
  datatype Record = Record(state: FlowState, deps: set<nat>, depsDone: set<nat>, parents: seq<nat>)

  type Store = map<nat, Record>

  function PendingDependencies(r: Record): int {
    |r.deps| - |r.depsDone|
  }

  /** Counts the finished job in one parent, and releases the parent if that was its last pending dependency. */
  function SettleParent(s: Store, parent: nat, job: nat): Store {
    if parent !in s then s
    else
      var p := s[parent];
      var counted := if job in p.deps then p.(depsDone := p.depsDone + {job}) else p;
      s[parent := if counted.state == WaitingChildren && PendingDependencies(counted) <= 0 then counted.(state := Waiting) else counted]
  }

  function SettleParents(s: Store, parents: seq<nat>, job: nat): Store
    decreases |parents|
  {
    if parents == [] then s else SettleParents(SettleParent(s, parents[0], job), parents[1..], job)
  }

  // ---- The invariant ----

  /** Parent links and dependency sets mirror each other. */
  ghost predicate Linked(s: Store) {
    && (forall c, p :: c in s && p in s[c].parents ==> p in s && c in s[p].deps)
    && (forall c, p :: p in s && c in s[p].deps ==> c in s && p in s[c].parents)
  }

  predicate IsCompleted(s: Store, c: nat) {
    c in s && s[c].state == Completed
  }

  /** What is counted as done are completed dependencies; all of them, except for completions in `exempt` (child, parent). */
  ghost predicate CountedIn(s: Store, p: nat, exempt: set<(nat, nat)>)
    requires p in s
  {
    && (forall c :: c in s[p].depsDone ==> c in s[p].deps && IsCompleted(s, c))
    && (forall c :: c in s[p].deps && IsCompleted(s, c) && (c, p) !in exempt ==> c in s[p].depsDone)
  }

  ghost predicate Counted(s: Store, exempt: set<(nat, nat)>) {
    forall p :: p in s ==> CountedIn(s, p, exempt)
  }

  ghost predicate Missing(r: Record) {
    exists d :: d in r.deps && d !in r.depsDone
  }

  /** A job waits for children only while one is pending, and does anything else only when none is. */
  ghost predicate Gated(s: Store) {
    forall p :: p in s ==> GatedRecord(s[p])
  }

  ghost predicate GatedRecord(r: Record) {
    if r.state == WaitingChildren then Missing(r) else r.deps == r.depsDone
  }

  ghost predicate Inv(s: Store, exempt: set<(nat, nat)>) {
    Linked(s) && Counted(s, exempt) && Gated(s)
  }

  lemma PendingMeansMissing(r: Record)
    requires r.depsDone <= r.deps
    ensures PendingDependencies(r) <= 0 <==> r.deps == r.depsDone
    ensures PendingDependencies(r) > 0 <==> Missing(r)
  {
    assert r.deps == r.depsDone + (r.deps - r.depsDone);
    assert Missing(r) <==> r.deps - r.depsDone != {};
  }

  // ---- Steps of the workers ----

  datatype Step = Start(job: nat) | Complete(done: nat) | Fail(failed: nat) | Retry(retried: nat) | Park(parked: nat)

  predicate Enabled(s: Store, step: Step) {
    match step
    case Start(j) => j in s && s[j].state == Waiting
    case Complete(j) => j in s && s[j].state == Active
    case Fail(j) => j in s && s[j].state == Active
    case Retry(j) => j in s && s[j].state == Failed
    case Park(j) => j in s && s[j].state == Active
  }

  /** The store after a step: a park is a running job asking to wait for its children. */
  function Apply(s: Store, step: Step): Store
    requires Enabled(s, step)
  {
    match step
    case Start(j) => s[j := s[j].(state := Active)]
    case Complete(j) => SettleParents(s[j := s[j].(state := Completed)], s[j].parents, j)
    case Fail(j) => s[j := s[j].(state := Failed)]
    case Retry(j) => s[j := s[j].(state := Waiting)]
    case Park(j) => s[j := s[j].(state := if PendingDependencies(s[j]) <= 0 then Waiting else WaitingChildren)]
  }

  predicate SameLinks(a: Record, b: Record) {
    a.deps == b.deps && a.parents == b.parents
  }

  lemma LinkedFrame(s: Store, s': Store)
    requires Linked(s) && s'.Keys == s.Keys && forall c :: c in s ==> SameLinks(s'[c], s[c])
    ensures Linked(s')
  {
    forall c, p | c in s' && p in s'[c].parents ensures p in s' && c in s'[p].deps {
      assert SameLinks(s'[c], s[c]);
      assert p in s && SameLinks(s'[p], s[p]);
    }
    forall c, p | p in s' && c in s'[p].deps ensures c in s' && p in s'[c].parents {
      assert SameLinks(s'[p], s[p]);
      assert c in s && SameLinks(s'[c], s[c]);
    }
  }

  lemma SettledRecord(r: Record, job: nat)
    requires job in r.deps && r.depsDone <= r.deps && GatedRecord(r)
    ensures var counted := r.(depsDone := r.depsDone + {job});
      GatedRecord(if counted.state == WaitingChildren && PendingDependencies(counted) <= 0 then counted.(state := Waiting) else counted)
  {
    PendingMeansMissing(r.(depsDone := r.depsDone + {job}));
  }

  lemma SettleParentKeeps(s: Store, exempt: set<(nat, nat)>, p: nat, job: nat)
    requires Inv(s, exempt) && job in s && s[job].state == Completed && p in s[job].parents
    ensures var s' := SettleParent(s, p, job);
      && Inv(s', exempt - {(job, p)}) && s'.Keys == s.Keys && job in s' && s'[job].state == Completed && s'[job].parents == s[job].parents
  {
    var s' := SettleParent(s, p, job);
    SettleEffect(s, exempt, p, job);
    hide SettleParent, CountedIn, IsCompleted, GatedRecord;
    LinkedFrame(s, s');
    hide Linked;
    CountedOneMore(s, s', exempt, p, job);
    hide Counted;
    forall q | q in s' ensures GatedRecord(s'[q]) { assert GatedRecord(s[q]); }
  }

  /** Only the parent's counted set grows, by the job, and its state follows. */
  lemma SettleEffect(s: Store, exempt: set<(nat, nat)>, p: nat, job: nat)
    requires Inv(s, exempt) && IsCompleted(s, job) && p in s[job].parents
    ensures p in s && job in s[p].deps
    ensures var s' := SettleParent(s, p, job);
      && s'.Keys == s.Keys && s' == s[p := s'[p]] && SameLinks(s'[p], s[p]) && s'[p].depsDone == s[p].depsDone + {job}
      && (s'[p].state == Completed <==> s[p].state == Completed) && GatedRecord(s'[p]) && IsCompleted(s', job)
  {
    assert p in s && job in s[p].deps;
    assert CountedIn(s, p, exempt) && GatedRecord(s[p]);
    hide Linked, Counted, Gated;
    SettledRecord(s[p], job);
  }

  lemma CountedOneMore(s: Store, s': Store, exempt: set<(nat, nat)>, p: nat, job: nat)
    requires Counted(s, exempt) && p in s && job in s[p].deps && IsCompleted(s, job)
    requires p in s' && s' == s[p := s'[p]] && SameLinks(s'[p], s[p]) && s'[p].depsDone == s[p].depsDone + {job}
    requires s'[p].state == Completed <==> s[p].state == Completed
    ensures Counted(s', exempt - {(job, p)})
  {
    assert forall c :: IsCompleted(s', c) <==> IsCompleted(s, c);
    hide IsCompleted;
    forall q | q in s' ensures CountedIn(s', q, exempt - {(job, p)}) { assert CountedIn(s, q, exempt); }
  }

  ghost function Pairs(job: nat, parents: seq<nat>): set<(nat, nat)> {
    set p | p in parents :: (job, p)
  }

  lemma {:induction false} SettleParentsKeeps(s: Store, exempt: set<(nat, nat)>, parents: seq<nat>, job: nat)
    requires Inv(s, exempt) && job in s && s[job].state == Completed && forall p :: p in parents ==> p in s[job].parents
    ensures Inv(SettleParents(s, parents, job), exempt - Pairs(job, parents)) && SettleParents(s, parents, job).Keys == s.Keys
    decreases |parents|
  {
    hide Inv, SettleParent, Pairs;
    PairsSplit(exempt, job, parents);
    if parents != [] {
      SettleParentKeeps(s, exempt, parents[0], job);
      SettleParentsKeeps(SettleParent(s, parents[0], job), exempt - {(job, parents[0])}, parents[1..], job);
    }
  }

  lemma PairsSplit(exempt: set<(nat, nat)>, job: nat, parents: seq<nat>)
    ensures parents == [] ==> exempt - Pairs(job, parents) == exempt
    ensures parents != [] ==> exempt - Pairs(job, parents) == exempt - {(job, parents[0])} - Pairs(job, parents[1..])
  {
    if parents != [] { assert parents == [parents[0]] + parents[1..]; }
  }

  /** Completions beyond those of before are exempt. */
  lemma CountedFrame(s: Store, s': Store, exempt: set<(nat, nat)>)
    requires Counted(s, {}) && s'.Keys == s.Keys && forall c :: c in s ==> SameLinks(s'[c], s[c]) && s'[c].depsDone == s[c].depsDone
    requires forall c :: IsCompleted(s, c) ==> IsCompleted(s', c)
    requires forall q, c :: q in s && c in s[q].deps && IsCompleted(s', c) ==> IsCompleted(s, c) || (c, q) in exempt
    ensures Counted(s', exempt)
  {
    hide IsCompleted;
    forall q | q in s' ensures CountedIn(s', q, exempt) {
      assert CountedIn(s, q, {}) && SameLinks(s'[q], s[q]);
    }
  }

  lemma GatedFrame(s: Store, s': Store, j: nat)
    requires Gated(s) && j in s && j in s' && s' == s[j := s'[j]] && GatedRecord(s'[j])
    ensures Gated(s')
  {
    hide GatedRecord;
    forall q | q in s' ensures GatedRecord(s'[q]) { assert GatedRecord(s[q]); }
  }

  lemma GateFollows(s: Store, j: nat, state: FlowState)
    requires Counted(s, {}) && j in s && (state == WaitingChildren <==> Missing(s[j]))
    ensures GatedRecord(s[j].(state := state))
  {
    assert CountedIn(s, j, {});
  }

  /** A job that changes between states without children involved. */
  lemma StateKeeps(s: Store, j: nat, state: FlowState)
    requires Inv(s, {}) && j in s && s[j].state != Completed && state != Completed
    requires state == WaitingChildren <==> Missing(s[j])
    ensures Inv(s[j := s[j].(state := state)], {})
  {
    var s' := s[j := s[j].(state := state)];
    hide Linked, Counted, Gated, GatedRecord, Missing;
    assert forall c :: c in s ==> SameLinks(s'[c], s[c]) && s'[c].depsDone == s[c].depsDone;
    assert forall c :: IsCompleted(s', c) <==> IsCompleted(s, c);
    LinkedFrame(s, s');
    GateFollows(s, j, state);
    GatedFrame(s, s', j);
    CountedFrame(s, s', {});
  }

  lemma MarkKeeps(s: Store, j: nat)
    requires Inv(s, {}) && Enabled(s, Complete(j))
    ensures Inv(s[j := s[j].(state := Completed)], Pairs(j, s[j].parents))
  {
    var s', exempt := s[j := s[j].(state := Completed)], Pairs(j, s[j].parents);
    assert GatedRecord(s[j]) && GatedRecord(s'[j]);
    assert forall q :: q in s && j in s[q].deps ==> q in s[j].parents;
    hide Linked, Counted, Gated, GatedRecord, Missing;
    assert forall c :: c in s ==> SameLinks(s'[c], s[c]) && s'[c].depsDone == s[c].depsDone;
    assert forall c :: IsCompleted(s', c) <==> IsCompleted(s, c) || c == j;
    LinkedFrame(s, s');
    GatedFrame(s, s', j);
    CountedFrame(s, s', exempt);
  }

  lemma CompleteKeeps(s: Store, j: nat)
    requires Inv(s, {}) && Enabled(s, Complete(j))
    ensures Inv(Apply(s, Complete(j)), {})
  {
    hide Inv;
    MarkKeeps(s, j);
    var exempt := Pairs(j, s[j].parents);
    SettleParentsKeeps(s[j := s[j].(state := Completed)], exempt, s[j].parents, j);
    assert exempt - exempt == {};
  }

  lemma ApplyKeeps(s: Store, step: Step)
    requires Inv(s, {}) && Enabled(s, step)
    ensures Inv(Apply(s, step), {})
  {
    match step
    case Start(j) => StateKeeps(s, j, Active);
    case Complete(j) => CompleteKeeps(s, j);
    case Fail(j) => StateKeeps(s, j, Failed);
    case Retry(j) => StateKeeps(s, j, Waiting);
    case Park(j) =>
      assert CountedIn(s, j, {});
      PendingMeansMissing(s[j]);
      StateKeeps(s, j, if PendingDependencies(s[j]) <= 0 then Waiting else WaitingChildren);
  }

  // ---- What the steps do ----

  ghost predicate AllCompleted(s: Store, jobs: set<nat>) {
    forall d :: d in jobs ==> d in s && s[d].state == Completed
  }

  /** Only the state of one job changes. */
  ghost predicate OnlyState(s: Store, s': Store, j: nat, from: FlowState, to: FlowState) {
    j in s && s[j].state == from && s' == s[j := s[j].(state := to)]
  }

  /** The finished job is counted in the parent, which is released if that was the last of its dependencies. */
  ghost predicate CountedAndReleased(s: Store, s': Store, p: nat, job: nat)
    requires p in s && p in s'
  {
    && s'[p].deps == s[p].deps && s'[p].parents == s[p].parents && s'[p].depsDone == s[p].depsDone + {job}
    && s'[p].state == if s[p].state == WaitingChildren && AllCompleted(s', s[p].deps) then Waiting else s[p].state
  }

  /** What each step does to the store, from the records alone. */
  ghost predicate Does(s: Store, step: Step, s': Store) {
    match step
    case Start(j) => OnlyState(s, s', j, Waiting, Active)
    case Fail(j) => OnlyState(s, s', j, Active, Failed)
    case Retry(j) => OnlyState(s, s', j, Failed, Waiting)
    case Park(j) => j in s && OnlyState(s, s', j, Active, if AllCompleted(s, s[j].deps) then Waiting else WaitingChildren)
    case Complete(j) =>
      && j in s && s[j].state == Active && s'.Keys == s.Keys && s'[j] == s[j].(state := Completed)
      && (forall p :: p in s && p != j && p in s[j].parents ==> CountedAndReleased(s, s', p, j))
      && (forall p :: p in s && p != j && p !in s[j].parents ==> s'[p] == s[p])
  }

  /** A running job does not wait for itself. */
  lemma NotOwnParent(s: Store, j: nat)
    requires Inv(s, {}) && j in s && s[j].state == Active
    ensures j !in s[j].parents && j !in s[j].deps
  {
    assert CountedIn(s, j, {}) && GatedRecord(s[j]);
  }

  lemma {:induction false} SettleAllEffect(s: Store, parents: seq<nat>, job: nat)
    requires forall p :: p in s && p in parents ==> job in s[p].deps && s[p].depsDone <= s[p].deps
    ensures var s' := SettleParents(s, parents, job);
      && s'.Keys == s.Keys
      && (forall p :: p in s && p !in parents ==> s'[p] == s[p])
      && (forall p :: p in s && p in parents ==> SettledOnce(s[p], s'[p], job))
    decreases |parents|
  {
    if parents != [] {
      var p, rest := parents[0], parents[1..];
      var mid := SettleParent(s, p, job);
      assert parents == [p] + rest;
      if p in s { SettledByOne(s, p, job); }
      SettleAllEffect(mid, rest, job);
      var s' := SettleParents(mid, rest, job);
      hide SettleParent, SettleParents;
      forall q | q in s && q in parents ensures SettledOnce(s[q], s'[q], job) {
        if q == p && p in rest { SettledTwice(s[p], mid[p], s'[p], job); }
      }
    }
  }

  /** The record with the job counted, released if nothing is missing. */
  ghost predicate SettledOnce(r: Record, r': Record, job: nat) {
    && SameLinks(r', r) && r'.depsDone == r.depsDone + {job}
    && r'.state == if r.state == WaitingChildren && r'.depsDone == r.deps then Waiting else r.state
  }

  lemma SettledByOne(s: Store, p: nat, job: nat)
    requires p in s && job in s[p].deps && s[p].depsDone <= s[p].deps
    ensures var s' := SettleParent(s, p, job);
      && s' == s[p := s'[p]] && SettledOnce(s[p], s'[p], job) && s'[p].depsDone <= s'[p].deps
  {
    PendingMeansMissing(s[p].(depsDone := s[p].depsDone + {job}));
  }

  lemma SettledTwice(a: Record, b: Record, c: Record, job: nat)
    requires SettledOnce(a, b, job) && SettledOnce(b, c, job)
    ensures SettledOnce(a, c, job)
  {
    assert c.depsDone == b.depsDone;
  }

  lemma CompleteDoes(s: Store, j: nat)
    requires Inv(s, {}) && Enabled(s, Complete(j))
    ensures Does(s, Complete(j), Apply(s, Complete(j)))
  {
    NotOwnParent(s, j);
    var marked := s[j := s[j].(state := Completed)];
    forall p | p in marked && p in s[j].parents ensures j in marked[p].deps && marked[p].depsDone <= marked[p].deps {
      assert CountedIn(s, p, {}) && j in s[p].deps;
    }
    SettleAllEffect(marked, s[j].parents, j);
    CompleteKeeps(s, j);
    var s' := Apply(s, Complete(j));
    forall p | p in s && p != j && p in s[j].parents ensures CountedAndReleased(s, s', p, j) {
      ReleasedWhenAll(s, s', p, j);
    }
  }

  lemma ReleasedWhenAll(s: Store, s': Store, p: nat, j: nat)
    requires Inv(s', {}) && p in s && p in s' && SettledOnce(s[p], s'[p], j)
    ensures CountedAndReleased(s, s', p, j)
  {
    assert CountedIn(s', p, {});
    assert s'[p].depsDone == s[p].deps <==> AllCompleted(s', s[p].deps);
  }

  /** Every step does to the records exactly that. */
  lemma StepDoes(s: Store, step: Step)
    requires Inv(s, {}) && Enabled(s, step)
    ensures Does(s, step, Apply(s, step))
  {
    match step
    case Complete(j) => CompleteDoes(s, j);
    case Park(j) =>
      assert CountedIn(s, j, {});
      PendingMeansMissing(s[j]);
    case _ =>
  }

  /** A step can be taken exactly if its job is in the state it starts from. */
  lemma EnabledExactly(s: Store, step: Step)
    requires Inv(s, {})
    ensures Enabled(s, step) <==> exists s' :: Does(s, step, s')
  {
    if Enabled(s, step) { StepDoes(s, step); }
  }

  // ---- Rankings ----

  predicate Lower(rank: map<nat, nat>, d: nat, p: nat) {
    p in rank && d in rank && rank[d] < rank[p]
  }

  /** Every dependency ranks below the jobs that wait for it. */
  ghost predicate Ranked(s: Store, rank: map<nat, nat>) {
    forall p, d :: p in s && d in s[p].deps ==> Lower(rank, d, p)
  }

  /** A store of flows: links, counts and gates agree, and no job waits for itself through others. */
  ghost predicate Sound(s: Store) {
    Inv(s, {}) && exists rank :: Ranked(s, rank)
  }

  ghost predicate SameShape(s: Store, s': Store) {
    s'.Keys == s.Keys && forall p :: p in s ==> SameLinks(s'[p], s[p])
  }

  lemma {:induction false} SettleFixes(s: Store, parents: seq<nat>, job: nat)
    ensures SameShape(s, SettleParents(s, parents, job))
    decreases |parents|
  {
    if parents != [] { SettleFixes(SettleParent(s, parents[0], job), parents[1..], job); }
  }

  lemma StepFixes(s: Store, step: Step)
    requires Enabled(s, step)
    ensures SameShape(s, Apply(s, step))
  {
    if step.Complete? { SettleFixes(s[step.done := s[step.done].(state := Completed)], s[step.done].parents, step.done); }
  }

  lemma RankedFrame(s: Store, s': Store, rank: map<nat, nat>)
    requires Ranked(s, rank) && SameShape(s, s')
    ensures Ranked(s', rank)
  {
    forall p, d | p in s' && d in s'[p].deps ensures Lower(rank, d, p) { assert p in s && SameLinks(s'[p], s[p]); }
  }

  lemma StepIsSound(s: Store, step: Step)
    requires Sound(s) && Enabled(s, step)
    ensures Sound(Apply(s, step))
  {
    hide Inv, Enabled, Apply, Ranked;
    ApplyKeeps(s, step);
    StepFixes(s, step);
    var rank :| Ranked(s, rank);
    RankedFrame(s, Apply(s, step), rank);
  }

  // ---- Creating flows while others run ----

  ghost function Part(s: Store, keys: set<nat>): Store {
    map j | j in keys && j in s :: s[j]
  }

  ghost function NewPart(before: Store, after: Store): Store {
    Part(after, after.Keys - before.Keys)
  }

  /** New flows beside the old ones: no job that was there changes, and the new jobs are linked among themselves. */
  ghost predicate Creates(before: Store, after: Store) {
    Kept(before, after) && Sound(NewPart(before, after))
  }

  ghost predicate Kept(before: Store, after: Store) {
    forall j :: j in before ==> j in after && after[j] == before[j]
  }

  /** Where a job of the later store is found. */
  lemma InOnePart(before: Store, after: Store, j: nat)
    requires Kept(before, after) && j in after
    ensures j in before ==> after[j] == before[j] && j !in NewPart(before, after)
    ensures j !in before ==> j in NewPart(before, after) && NewPart(before, after)[j] == after[j]
  {}

  /** The links of a part are links of the whole. */
  lemma LinksOfPart(s: Store, part: Store, c: nat, p: nat)
    requires Linked(part) && (forall j :: j in part ==> j in s && s[j] == part[j])
    ensures c in part && p in s[c].parents ==> p in s && c in s[p].deps
    ensures p in part && c in s[p].deps ==> c in s && p in s[c].parents
  {}

  lemma CreatedIsLinked(before: Store, after: Store)
    requires Kept(before, after) && Linked(before) && Linked(NewPart(before, after))
    ensures Linked(after)
  {
    hide Linked;
    forall c, p | c in after && p in after[c].parents ensures p in after && c in after[p].deps {
      InOnePart(before, after, c);
      LinksOfPart(after, before, c, p);
      LinksOfPart(after, NewPart(before, after), c, p);
    }
    forall c, p | p in after && c in after[p].deps ensures c in after && p in after[c].parents {
      InOnePart(before, after, p);
      LinksOfPart(after, before, c, p);
      LinksOfPart(after, NewPart(before, after), c, p);
    }
    LinkedIf(after);
  }

  lemma LinkedIf(s: Store)
    requires forall c, p :: c in s && p in s[c].parents ==> p in s && c in s[p].deps
    requires forall c, p :: p in s && c in s[p].deps ==> c in s && p in s[c].parents
    ensures Linked(s)
  {}

  lemma CreatedIsCounted(before: Store, after: Store)
    requires Kept(before, after) && Linked(before) && Linked(NewPart(before, after)) && Counted(before, {}) && Counted(NewPart(before, after), {})
    ensures Counted(after, {})
  {
    var created := NewPart(before, after);
    assert forall j :: j in after ==> j in before || j in created;
    assert forall j :: j in created ==> j in after && j !in before && created[j] == after[j];
    hide NewPart;
    forall p | p in after ensures CountedIn(after, p, {}) {
      if p in before {
        assert CountedIn(before, p, {});
        assert forall c :: c in before[p].deps ==> c in before && (IsCompleted(after, c) <==> IsCompleted(before, c));
      } else {
        assert CountedIn(created, p, {});
        assert forall c :: c in created[p].deps ==> c in created && (IsCompleted(after, c) <==> IsCompleted(created, c));
      }
    }
  }

  /** The two rankings side by side. */
  ghost function JoinRanks(before: Store, after: Store, rankBefore: map<nat, nat>, rankNew: map<nat, nat>): map<nat, nat> {
    map j | j in after && (if j in before then j in rankBefore else j in rankNew) :: if j in before then rankBefore[j] else rankNew[j]
  }

  lemma CreatedIsRanked(before: Store, after: Store, rankBefore: map<nat, nat>, rankNew: map<nat, nat>)
    requires Kept(before, after) && Linked(before) && Linked(NewPart(before, after))
    requires Ranked(before, rankBefore) && Ranked(NewPart(before, after), rankNew)
    ensures Ranked(after, JoinRanks(before, after, rankBefore, rankNew))
  {
    forall p, d | p in after && d in after[p].deps ensures Lower(JoinRanks(before, after, rankBefore, rankNew), d, p) {
      InOnePart(before, after, p);
      hide NewPart;
      if p in before {
        assert d in before && Lower(rankBefore, d, p);
      } else {
        assert d in NewPart(before, after) && Lower(rankNew, d, p);
        NotOld(before, after, d);
      }
    }
  }

  lemma NotOld(before: Store, after: Store, j: nat)
    requires j in NewPart(before, after)
    ensures j in after && j !in before
  {}

  lemma CreationIsSound(before: Store, after: Store)
    requires Sound(before) && Creates(before, after)
    ensures Sound(after)
  {
    var rankBefore :| Ranked(before, rankBefore);
    var rankNew :| Ranked(NewPart(before, after), rankNew);
    CreatedIsLinked(before, after);
    CreatedIsCounted(before, after);
    CreatedIsRanked(before, after, rankBefore, rankNew);
    hide Linked, Counted, Ranked, NewPart, GatedRecord;
    forall p | p in after ensures GatedRecord(after[p]) { InOnePart(before, after, p); }
  }

  // ---- Histories ----

  /** What happens to the store: a worker takes a step, or a flow is created. */
  datatype Event = Work(step: Step) | Create(after: Store)

  ghost predicate Happens(s: Store, event: Event, s': Store) {
    match event
    case Work(step) => Enabled(s, step) && s' == Apply(s, step)
    case Create(after) => s' == after && Creates(s, after)
  }

  ghost predicate IsHistory(states: seq<Store>, events: seq<Event>) {
    && |states| == |events| + 1
    && forall i, j :: 0 <= i < |events| && j == i + 1 ==> Happens(states[i], events[i], states[j])
  }

  lemma {:induction false} HistoryIsSound(states: seq<Store>, events: seq<Event>, i: nat)
    requires IsHistory(states, events) && Sound(states[0]) && i < |states|
    ensures Sound(states[i])
    decreases i
  {
    hide Sound, Enabled, Apply, Creates;
    if i > 0 {
      HistoryIsSound(states, events, i - 1);
      assert Happens(states[i - 1], events[i - 1], states[i]);
      match events[i - 1] {
        case Work(step) => StepIsSound(states[i - 1], step);
        case Create(after) => CreationIsSound(states[i - 1], after);
      }
    }
  }

  ghost predicate LinksLast(s: Store, s': Store) {
    forall p :: p in s ==> p in s' && SameLinks(s'[p], s[p])
  }

  /** No event changes who waits for whom: jobs stay, with their dependencies and parents. */
  lemma {:induction false} DepsAreFixed(states: seq<Store>, events: seq<Event>, i: nat)
    requires IsHistory(states, events) && i < |states|
    ensures LinksLast(states[0], states[i])
    decreases i
  {
    if i > 0 {
      DepsAreFixed(states, events, i - 1);
      assert Happens(states[i - 1], events[i - 1], states[i]);
      hide Enabled, Apply, Sound;
      if events[i - 1].Work? { StepFixes(states[i - 1], events[i - 1].step); }
    }
  }

  // ---- The theorems ----

  /** In every reachable state, a job waits for children exactly while one of them has not completed. */
  lemma WaitsExactlyWhilePending(states: seq<Store>, events: seq<Event>, i: nat, p: nat)
    requires IsHistory(states, events) && Sound(states[0]) && i < |states| && p in states[i]
    ensures states[i][p].state == WaitingChildren <==> exists d :: d in states[i][p].deps && !IsCompleted(states[i], d)
  {
    hide IsHistory;
    HistoryIsSound(states, events, i);
    var s := states[i];
    assert CountedIn(s, p, {});
    if s[p].state == WaitingChildren {
      var d :| d in s[p].deps && d !in s[p].depsDone;
      assert !IsCompleted(s, d);
    }
  }

  /** If every job that ran has completed and nothing can run, no job is left. */
  lemma NothingStuck(states: seq<Store>, events: seq<Event>, i: nat, p: nat)
    requires IsHistory(states, events) && Sound(states[0]) && i < |states| && p in states[i]
    requires forall j :: j in states[i] ==> states[i][j].state == Completed || states[i][j].state == WaitingChildren
    ensures states[i][p].state == Completed
  {
    hide IsHistory;
    HistoryIsSound(states, events, i);
    var rank :| Ranked(states[i], rank);
    AllDone(states[i], rank, p);
  }

  lemma {:induction false} AllDone(s: Store, rank: map<nat, nat>, p: nat)
    requires Inv(s, {}) && p in s && Ranked(s, rank)
    requires forall j :: j in s ==> s[j].state == Completed || s[j].state == WaitingChildren
    ensures s[p].state == Completed
    decreases if p in rank then rank[p] else 0
  {
    if s[p].state == WaitingChildren {
      var d :| d in s[p].deps && d !in s[p].depsDone;
      assert CountedIn(s, p, {});
      AllDone(s, rank, d);
    }
  }
}
