/** The in-memory worker in batch mode: claimed records wait in a partial batch until it is full or its timer fires. */
module BatchWorkers {
  function Sum(sizes: seq<nat>): nat {
    if sizes == [] then 0 else Sum(sizes[..|sizes| - 1]) + sizes[|sizes| - 1]
  }

  lemma {:induction false} SumWithout(sizes: seq<nat>, k: nat)
    requires k < |sizes|
    ensures Sum(sizes) == Sum(sizes[..k] + sizes[k + 1..]) + sizes[k]
    decreases |sizes|
  {
    if k == |sizes| - 1 {
      assert sizes[..k] + sizes[k + 1..] == sizes[..k];
    } else {
      var init, rest := sizes[..|sizes| - 1], sizes[..k] + sizes[k + 1..];
      SumWithout(init, k);
      assert rest[..|rest| - 1] == init[..k] + init[k + 1..];
    }
  }

  lemma SumAppend(sizes: seq<nat>, size: nat)
    ensures Sum(sizes + [size]) == Sum(sizes) + size
  {
    assert (sizes + [size])[..|sizes|] == sizes;
  }

  /** The records that are still current. */
  function Kept(q: seq<string>, current: set<string>): (r: seq<string>)
    ensures |r| <= |q|
    ensures forall x :: x in r <==> x in q && x in current
  {
    if q == [] then []
    else
      assert forall x :: x in q <==> x in q[..|q| - 1] || x == q[|q| - 1];
      Kept(q[..|q| - 1], current) + if q[|q| - 1] in current then [q[|q| - 1]] else []
  }

  /** Every current record is kept as often as it was there, no other at all. */
  lemma {:induction false} KeptCount(q: seq<string>, current: set<string>, x: string)
    ensures multiset(Kept(q, current))[x] == if x in current then multiset(q)[x] else 0
    decreases |q|
  {
    if q != [] {
      KeptCount(q[..|q| - 1], current, x);
      assert q == q[..|q| - 1] + [q[|q| - 1]];
    }
  }

  /** Keeping goes piece by piece, so the records kept keep their order. */
  lemma {:induction false} KeptConcat(a: seq<string>, b: seq<string>, current: set<string>)
    ensures Kept(a + b, current) == Kept(a, current) + Kept(b, current)
    decreases |b|
  {
    if b == [] {
      assert a + b == a;
    } else {
      var init, last := b[..|b| - 1], b[|b| - 1];
      KeptConcat(a, init, current);
      assert (a + b)[..|a + b| - 1] == a + init && (a + b)[|a + b| - 1] == last;
    }
  }

  lemma {:induction false} KeptAll(q: seq<string>, current: set<string>)
    requires forall x :: x in q ==> x in current
    ensures Kept(q, current) == q
    decreases |q|
  {
    if q != [] {
      KeptAll(q[..|q| - 1], current);
      assert q == q[..|q| - 1] + [q[|q| - 1]];
    }
  }

  /** The prefetch budget of a worker. */
  function Budget(concurrency: nat, batchSize: nat): int {
    concurrency * batchSize
  }

  lemma BudgetBounds(concurrency: nat, batchSize: nat)
    requires concurrency >= 1
    ensures batchSize <= Budget(concurrency, batchSize) && (concurrency == 1 ==> Budget(concurrency, batchSize) == batchSize)
  {}

  class BatchWorker {
    const concurrency: nat
    const batchSize: nat
    const batchTimeout: nat
    var activeCount: nat
    var pendingBatch: seq<string>
    var timerArmed: bool
    var running: bool
    /** Sizes of the batches whose processor has not settled, as their continuations remember them. */
    var batches: seq<nat>

    /** The prefetch budget holds for active and claimed records together, and at concurrency 1 there is one batch. */
    ghost predicate Valid()
      reads this
    {
      && concurrency >= 1 && batchSize >= 1
      && activeCount == Sum(batches) && (forall k :: 0 <= k < |batches| ==> 1 <= batches[k] <= batchSize)
      && |pendingBatch| <= batchSize
      && activeCount + |pendingBatch| <= Budget(concurrency, batchSize)
      && (timerArmed ==> batchTimeout > 0)
      && (concurrency == 1 ==> |batches| <= 1 && (pendingBatch == [] || batches == []))
    }

    constructor (concurrency: nat, batchSize: nat, batchTimeout: nat)
      requires concurrency >= 1 && batchSize >= 1
      ensures Valid() && pendingBatch == [] && batches == [] && running && !timerArmed
      ensures this.concurrency == concurrency && this.batchSize == batchSize && this.batchTimeout == batchTimeout
    {
      this.concurrency, this.batchSize, this.batchTimeout := concurrency, batchSize, batchTimeout;
      activeCount, pendingBatch, timerArmed, running, batches := 0, [], false, true, [];
      new;
      BudgetBounds(concurrency, batchSize);
    }

    /** How many more records may be started. */
    function BatchRoom(): int
      reads this
    {
      if concurrency == 1 then (if activeCount == 0 then batchSize else 0) else Budget(concurrency, batchSize) - activeCount
    }

    /** How many records the partial batch may hold. */
    function BatchCap(): int
      reads this
    {
      if batchSize < BatchRoom() then batchSize else BatchRoom()
    }

    /** `n` more records may be started as one batch: no batch is over its size, all active records together stay within
        `concurrency` full batches, and at concurrency 1 a batch starts alone.
    */
    ghost predicate Fits(n: nat)
      reads this
    {
      && n <= batchSize
      && activeCount + n <= concurrency * batchSize
      && (concurrency == 1 && n > 0 ==> activeCount == 0)
    }

    /** The partial batch may hold exactly as many records as fit, and there is room exactly when one fits. */
    lemma CapIsTheMost(n: nat)
      requires Valid()
      ensures Fits(n) <==> n == 0 || n <= BatchCap()
      ensures BatchRoom() > 0 <==> Fits(1)
    {}

    /** Active and claimed records together never need more than `concurrency` full batches. */
    lemma WithinBudget()
      requires Valid()
      ensures activeCount + |pendingBatch| <= concurrency * batchSize
      ensures concurrency == 1 && pendingBatch != [] ==> activeCount == 0
    {
      if concurrency == 1 && pendingBatch != [] { assert batches == []; }
    }

    lemma Idle()
      requires Valid()
      ensures activeCount == 0 ==> batches == []
    {}

    /** Starts one batch of the given records. */
    method ExecuteBatch(records: seq<string>)
      requires Valid() && pendingBatch == [] && 1 <= |records| <= batchSize && activeCount + |records| <= Budget(concurrency, batchSize)
      requires concurrency == 1 ==> batches == []
      modifies this`activeCount, this`batches
      ensures Valid() && batches == old(batches) + [|records|] && activeCount == old(activeCount) + |records|
    {
      hide Budget, Sum, Kept;
      SumAppend(batches, |records|);
      activeCount := activeCount + |records|;
      batches := batches + [|records|];
    }

    method FilterPending(current: set<string>)
      requires Valid()
      modifies this`pendingBatch
      ensures Valid() && pendingBatch == Kept(old(pendingBatch), current)
    {
      var kept: seq<string> := [];
      for i := 0 to |pendingBatch|
        invariant kept == Kept(pendingBatch[..i], current)
      {
        assert pendingBatch[..i + 1][..i] == pendingBatch[..i];
        if pendingBatch[i] in current { kept := kept + [pendingBatch[i]]; }
      }
      assert pendingBatch[..|pendingBatch|] == pendingBatch;
      pendingBatch := kept;
    }

    /** Keeps the current records of the partial batch and fills it up from the waiting ones. */
    method ClaimUpTo(cap: int, current: set<string>, waiting: seq<string>) returns (claimed: nat)
      requires Valid() && 0 < cap <= BatchCap() && |pendingBatch| <= cap
      modifies this`pendingBatch
      ensures Valid() && claimed <= |waiting| && |pendingBatch| <= cap && (claimed == |waiting| || |pendingBatch| == cap)
      ensures pendingBatch == Kept(old(pendingBatch), current) + waiting[..claimed]
      ensures forall x :: x in pendingBatch <==> (x in old(pendingBatch) && x in current) || x in waiting[..claimed]
    {
      Idle();
      hide Budget, Kept, Sum;
      claimed := 0;
      FilterPending(current);
      ghost var kept := pendingBatch;
      while |pendingBatch| < cap && claimed < |waiting|
        invariant Valid() && claimed <= |waiting| && |pendingBatch| <= cap
        invariant pendingBatch == kept + waiting[..claimed]
      {
        pendingBatch := pendingBatch + [waiting[claimed]];
        claimed := claimed + 1;
      }
    }

    /** Claims what can start now from the waiting records, in order, and starts a batch when it is full or need not wait.
        `current` are the claimed records that are still waiting; `waiting` what the queue would hand out.
    */
    method ProcessAvailableBatch(current: set<string>, waiting: seq<string>) returns (claimed: nat, started: seq<string>)
      requires Valid()
      modifies this
      ensures Valid() && running == old(running) && claimed <= |waiting|
      ensures old(BatchRoom()) <= 0 ==> claimed == 0 && started == [] && pendingBatch == old(pendingBatch) && batches == old(batches)
      ensures old(BatchRoom()) > 0 ==> started + pendingBatch == Kept(old(pendingBatch), current) + waiting[..claimed]
      ensures old(BatchRoom()) > 0 ==>
                forall x :: x in started + pendingBatch <==> (x in old(pendingBatch) && x in current) || x in waiting[..claimed]
      ensures old(BatchRoom()) > 0 ==> (claimed == |waiting| || |started + pendingBatch| == old(BatchCap())) && |started + pendingBatch| <= old(BatchCap())
      ensures old(BatchRoom()) > 0 ==> (started == [] || pendingBatch == [])
      ensures old(BatchRoom()) > 0 && pendingBatch != [] ==> batchTimeout > 0 && |pendingBatch| < old(BatchCap()) && timerArmed
      ensures batches == if started == [] then old(batches) else old(batches) + [|started|]
      ensures activeCount == old(activeCount) + |started|
      ensures started != [] ==> |started| == old(BatchCap()) || batchTimeout == 0
      ensures old(BatchRoom()) <= 0 ==> timerArmed == old(timerArmed)
      ensures timerArmed ==> old(timerArmed) || pendingBatch != []
      ensures started != [] && |started| == old(BatchCap()) ==> !timerArmed
    {
      hide Budget, Kept, Sum;
      BudgetBounds(concurrency, batchSize);
      claimed, started := 0, [];
      var room := BatchRoom();
      if room <= 0 { return; }
      var cap := BatchCap();
      claimed := ClaimUpTo(cap, current, waiting);
      if pendingBatch == [] { return; }
      if |pendingBatch| >= cap {
        timerArmed := false;
      } else if batchTimeout > 0 {
        timerArmed := true;
        return;
      }
      started := pendingBatch;
      pendingBatch := [];
      ExecuteBatch(started);
    }

    /** The flush timer fires. */
    method FlushBatch(current: set<string>) returns (started: seq<string>)
      requires Valid()
      modifies this
      ensures Valid() && running == old(running) && !timerArmed
      ensures running ==> pendingBatch == [] && started == Kept(old(pendingBatch), current)
      ensures running ==> forall x :: x in started <==> x in old(pendingBatch) && x in current
      ensures !running ==> started == [] && pendingBatch == old(pendingBatch)
      ensures batches == if started == [] then old(batches) else old(batches) + [|started|]
      ensures activeCount == old(activeCount) + |started|
    {
      hide Budget, Kept;
      timerArmed := false;
      started := [];
      if !running { return; }
      FilterPending(current);
      if pendingBatch == [] { return; }
      started := pendingBatch;
      pendingBatch := [];
      ExecuteBatch(started);
    }

    method RemoveBatch(k: nat)
      requires Valid() && k < |batches|
      modifies this`batches, this`activeCount
      ensures Valid() && batches == old(batches[..k] + batches[k + 1..]) && activeCount == old(activeCount) - old(batches)[k]
    {
      hide Budget, Sum;
      SumWithout(batches, k);
      activeCount := activeCount - batches[k];
      batches := batches[..k] + batches[k + 1..];
    }

    /** The room once a batch of the given size is no longer active. */
    ghost function RoomAfter(active: nat, size: nat): int {
      if concurrency == 1 then batchSize else Budget(concurrency, batchSize) - (active - size)
    }

    /** A settled batch always leaves room: at concurrency 1 it was the only one. */
    lemma RoomIsFreed(k: nat)
      requires Valid() && k < |batches|
      ensures RoomAfter(activeCount, batches[k]) > 0
      ensures concurrency == 1 ==> activeCount == batches[k]
    {
      hide Budget;
      if concurrency == 1 { assert Sum(batches) == Sum(batches[..0]) + batches[0] && batches[..0] == []; }
    }

    /** The processor of batch `k` settles; the worker looks for more unless it is closed or paused. */
    method BatchSettled(k: nat, paused: bool, current: set<string>, waiting: seq<string>) returns (claimed: nat, started: seq<string>)
      requires Valid() && k < |batches|
      modifies this
      ensures Valid() && running == old(running)
      ensures claimed <= |waiting| && activeCount == old(activeCount) - old(batches)[k] + |started|
      ensures !running || paused ==> claimed == 0 && started == [] && pendingBatch == old(pendingBatch)
      ensures running && !paused ==> started + pendingBatch == Kept(old(pendingBatch), current) + waiting[..claimed]
      ensures running && !paused ==>
                forall x :: x in started + pendingBatch <==> (x in old(pendingBatch) && x in current) || x in waiting[..claimed]
      ensures running && !paused ==> claimed == |waiting| || |started + pendingBatch| == batchSize
                                     || |started + pendingBatch| == RoomAfter(old(activeCount), old(batches)[k])
      ensures started != [] ==> |started| == batchSize || |started| == RoomAfter(old(activeCount), old(batches)[k]) || batchTimeout == 0
      ensures batches == old(batches[..k] + batches[k + 1..]) + if started == [] then [] else [|started|]
      ensures running && pendingBatch != [] && batchTimeout > 0 ==> timerArmed
      ensures timerArmed ==> old(timerArmed) || pendingBatch != []
    {
      hide Budget, Kept, Sum;
      claimed, started := 0, [];
      RoomIsFreed(k);
      RemoveBatch(k);
      if !running { return; }
      if !paused { claimed, started := ProcessAvailableBatch(current, waiting); }
      if !timerArmed && batchTimeout > 0 && pendingBatch != [] { timerArmed := true; }
    }

    /** Closing hands the claimed records that still wait back to the queue. */
    method Close(current: set<string>) returns (handedBack: seq<string>)
      requires Valid()
      modifies this
      ensures Valid() && !running && !timerArmed && pendingBatch == [] && handedBack == Kept(old(pendingBatch), current) && batches == old(batches)
      ensures forall x :: x in handedBack <==> x in old(pendingBatch) && x in current
    {
      running := false;
      timerArmed := false;
      FilterPending(current);
      handedBack := pendingBatch;
      pendingBatch := [];
    }
  }
}
