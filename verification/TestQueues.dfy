/** The in-memory queue: job records, the dispatch queue that holds the waiting ones, and every operation that moves
    a job into or out of it.
 */
module TestQueues {
  import opened Wrappers
  import opened Sequences
  import opened Dispatch

  datatype JobState = Waiting | Active | Delayed | Prioritized | Completed | Failed | Suspended | WaitingChildren

  /** The states whose jobs have an entry in the dispatch queue. */
  predicate Queued(s: JobState) {
    s.Waiting? || s.Prioritized?
  }

  class JobRecord {
    const id: string
    const lifo: bool
    var priority: nat
    var state: JobState

    constructor (id: string, priority: nat, lifo: bool)
      ensures this.id == id && this.priority == priority && this.lifo == lifo && state == Waiting
    {
      this.id, this.priority, this.lifo, state := id, priority, lifo, Waiting;
    }

    function ToItem(): Item
      reads this`priority
    {
      Item(id, priority, lifo)
    }
  }

  ghost function ItemsOf(q: seq<JobRecord>): (items: seq<Item>)
    reads (set r | r in q)`priority
    ensures |items| == |q| && forall i :: 0 <= i < |q| ==> items[i] == q[i].ToItem()
  {
    if q == [] then [] else ItemsOf(q[..|q| - 1]) + [q[|q| - 1].ToItem()]
  }

  /** The first occurrences of the records in `alive`. */
  ghost function Kept(q: seq<JobRecord>, alive: set<JobRecord>): (r: seq<JobRecord>)
    ensures NoRepeats(r) && (forall x :: x in r ==> x in q && x in alive) && (forall x :: x in q && x in alive ==> x in r)
  {
    if q == [] then []
    else
      var init, last := Kept(q[..|q| - 1], alive), q[|q| - 1];
      assert q == q[..|q| - 1] + [last];
      if last in alive && last !in init then init + [last] else init
  }

  lemma {:induction false} KeepsAll(q: seq<JobRecord>, alive: set<JobRecord>)
    requires NoRepeats(q) && forall x :: x in q ==> x in alive
    ensures Kept(q, alive) == q
  {
    if q != [] {
      KeepsAll(q[..|q| - 1], alive);
      assert q == q[..|q| - 1] + [q[|q| - 1]];
    }
  }

  lemma KeptNothing(alive: set<JobRecord>)
    ensures Kept([], alive) == []
  {}

  lemma KeptStep(q: seq<JobRecord>, i: nat, alive: set<JobRecord>)
    requires i < |q|
    ensures Kept(q[..i + 1], alive) ==
            if q[i] in alive && q[i] !in Kept(q[..i], alive) then Kept(q[..i], alive) + [q[i]] else Kept(q[..i], alive)
  {
    assert q[..i + 1][..i] == q[..i];
  }

  ghost function Ids(q: seq<JobRecord>): set<string> {
    set r | r in q :: r.id
  }

  /** The queue without the entries of some ids. */
  ghost function DropIds(q: seq<JobRecord>, ids: set<string>): (r: seq<JobRecord>)
    ensures (forall x :: x in r ==> x in q && x.id !in ids) && (forall x :: x in q && x.id !in ids ==> x in r)
    ensures NoRepeats(q) ==> NoRepeats(r)
  {
    if q == [] then []
    else
      var init, last := DropIds(q[..|q| - 1], ids), q[|q| - 1];
      assert q == q[..|q| - 1] + [last];
      if last.id !in ids then init + [last] else init
  }

  lemma DropNothing(ids: set<string>)
    ensures DropIds([], ids) == []
  {}

  lemma DropStep(q: seq<JobRecord>, i: nat, ids: set<string>)
    requires i < |q|
    ensures DropIds(q[..i + 1], ids) == if q[i].id !in ids then DropIds(q[..i], ids) + [q[i]] else DropIds(q[..i], ids)
  {
    assert q[..i + 1][..i] == q[..i];
  }

  lemma {:induction false} NoEntry(q: seq<JobRecord>, ids: set<string>)
    requires forall r :: r in q ==> r.id !in ids
    ensures DropIds(q, ids) == q
  {
    if q != [] {
      NoEntry(q[..|q| - 1], ids);
      assert q == q[..|q| - 1] + [q[|q| - 1]];
    }
  }

  /** `r` was the record to go before all others, and `rest` are the others in their order. */
  ghost predicate TookFirst(q: seq<JobRecord>, r: JobRecord, rest: seq<JobRecord>)
    reads (set x | x in q)`priority
  {
    exists i: nat :: i < |q| && q[i] == r && IsNext(ItemsOf(q), i) && rest == q[..i] + q[i + 1..]
  }

  /** Dropping entries takes exactly their items out of the dispatch order; all others keep their places. */
  lemma DropKeepsOrder(q: seq<JobRecord>, ids: set<string>)
    ensures DispatchOrder(ItemsOf(DropIds(q, ids))) == DropItems(DispatchOrder(ItemsOf(q)), ids)
  {
    hide DispatchOrder, ItemsOf, DropIds;
    ItemsOfDropped(q, ids);
    RemovalKeepsOrder(ItemsOf(q), ids);
  }

  lemma {:induction false} ItemsOfDropped(q: seq<JobRecord>, ids: set<string>)
    ensures ItemsOf(DropIds(q, ids)) == DropItems(ItemsOf(q), ids)
    decreases |q|
  {
    if q != [] {
      var init, last := q[..|q| - 1], q[|q| - 1];
      ItemsOfDropped(init, ids);
      DropConcat(ItemsOf(init), [last.ToItem()], ids);
      DropOne(last.ToItem(), ids);
      ItemsOfAppend(DropIds(init, ids), last);
    }
  }

  lemma ItemsOfAppend(q: seq<JobRecord>, r: JobRecord)
    ensures ItemsOf(q + [r]) == ItemsOf(q) + [r.ToItem()]
  {
    assert (q + [r])[..|q|] == q;
  }

  lemma Compacted(q: seq<JobRecord>, write: nat, r: JobRecord)
    requires write < |q|
    ensures q[write := r][..write + 1] == q[..write] + [r]
    ensures forall read :: write < read <= |q| ==> q[write := r][read..] == q[read..]
  {}

  class TestQueue {
    var jobs: map<string, JobRecord>
    var waitingQueue: seq<JobRecord>

    constructor ()
      ensures Valid() && jobs == map[] && waitingQueue == []
    {
      jobs, waitingQueue := map[], [];
    }

    // ---- Integrity ----

    predicate Live(r: JobRecord)
      reads this`jobs
    {
      r.id in jobs && jobs[r.id] == r
    }

    ghost predicate Keyed()
      reads this`jobs
    {
      forall id :: id in jobs ==> jobs[id].id == id
    }

    /** Each waiting or prioritized job of the store, except those in `held`, has exactly one entry, and there are no others. */
    ghost predicate ValidBut(held: set<JobRecord>)
      reads this, jobs.Values
    {
      && Keyed() && NoRepeats(waitingQueue)
      && (forall r :: r in waitingQueue ==> Live(r) && Queued(r.state) && r !in held)
      && (forall id :: id in jobs && Queued(jobs[id].state) && jobs[id] !in held ==> jobs[id] in waitingQueue)
    }

    ghost predicate Valid()
      reads this, jobs.Values
    {
      ValidBut({})
    }

    /** The waiting jobs of the store. */
    ghost function Alive(): set<JobRecord>
      reads this`jobs, jobs.Values
    {
      set id | id in jobs && jobs[id].id == id && jobs[id].state == Waiting :: jobs[id]
    }

    // ---- The dispatch queue ----

    /** Compacts the queue in place over the entries with this id. */
    method DequeueRecord(record: JobRecord)
      modifies this`waitingQueue
      ensures waitingQueue == DropIds(old(waitingQueue), {record.id})
    {
      hide DropIds;
      var entries, q := waitingQueue, waitingQueue;
      var write := 0;
      DropNothing({record.id});
      for read := 0 to |entries|
        invariant |q| == |entries| && write <= read && q[..write] == DropIds(entries[..read], {record.id})
        invariant q[read..] == entries[read..]
      {
        assert q[read] == entries[read];
        DropStep(entries, read, {record.id});
        if q[read].id != record.id {
          Compacted(q, write, q[read]);
          q := q[write := q[read]];
          write := write + 1;
        }
      }
      assert entries[..|entries|] == entries;
      waitingQueue := q[..write];
    }

    method EnqueueWaiting(record: JobRecord)
      requires Valid() && Live(record)
      modifies this`waitingQueue, record`state
      ensures Valid() && record.state == Waiting
      ensures waitingQueue == DropIds(old(waitingQueue), {record.id}) + [record]
    {
      DequeueRecord(record);
      record.state := Waiting;
      waitingQueue := waitingQueue + [record];
    }

    method EnqueuePrioritized(record: JobRecord)
      requires Valid() && Live(record)
      modifies this`waitingQueue, record`state
      ensures Valid() && record.state == Prioritized
      ensures waitingQueue == DropIds(old(waitingQueue), {record.id}) + [record]
    {
      DequeueRecord(record);
      record.state := Prioritized;
      waitingQueue := waitingQueue + [record];
    }

    method ParkDelayed(record: JobRecord)
      requires Valid() && Live(record)
      modifies this`waitingQueue, record`state
      ensures Valid() && record.state == Delayed
      ensures waitingQueue == DropIds(old(waitingQueue), {record.id})
    {
      DequeueRecord(record);
      record.state := Delayed;
    }

    /** A job in any other state has no entry to drop. */
    lemma NotQueued(record: JobRecord)
      requires Valid() && Live(record) && !Queued(record.state)
      ensures DropIds(waitingQueue, {record.id}) == waitingQueue
    {
      NoEntry(waitingQueue, {record.id});
    }

    /** Every prioritized job of the store that has an entry becomes waiting. */
    method PromotePrioritized()
      requires Keyed()
      modifies (set r | r in waitingQueue)`state
      ensures forall r :: r in waitingQueue ==> r.state == (if old(r.state) == Prioritized && Live(r) then Waiting else old(r.state))
      ensures old(Valid()) ==> Valid()
    {
      for i := 0 to |waitingQueue|
        invariant forall r :: r in waitingQueue[..i] ==> r.state == (if old(r.state) == Prioritized && Live(r) then Waiting else old(r.state))
        invariant forall r :: r in waitingQueue && r !in waitingQueue[..i] ==> r.state == old(r.state)
      {
        var record := waitingQueue[i];
        if record.state == Prioritized && Live(record) { record.state := Waiting; }
      }
      assert waitingQueue[..|waitingQueue|] == waitingQueue;
    }

    // ---- Dispatch ----

    /** Compacts the queue in place to the first entry of each waiting job of the store. */
    method Compact()
      requires Keyed()
      modifies this`waitingQueue
      ensures waitingQueue == Kept(old(waitingQueue), Alive())
    {
      hide Kept;
      var entries, q := waitingQueue, waitingQueue;
      var seen: set<string> := {};
      var write := 0;
      KeptNothing(Alive());
      for read := 0 to |entries|
        invariant |q| == |entries| && write <= read && q[..write] == Kept(entries[..read], Alive())
        invariant q[read..] == entries[read..]
        invariant seen == Ids(q[..write])
      {
        var r := q[read];
        assert r == entries[read];
        KeptStep(entries, read, Alive());
        SeenById(q[..write], r);
        if r.state == Waiting && Live(r) && r.id !in seen {
          seen := seen + {r.id};
          Compacted(q, write, r);
          q := q[write := r];
          write := write + 1;
        }
      }
      assert entries[..|entries|] == entries;
      waitingQueue := q[..write];
    }

    /** Among jobs of the store, ids identify records. */
    lemma SeenById(kept: seq<JobRecord>, r: JobRecord)
      requires Keyed() && forall x :: x in kept ==> x in Alive()
      ensures Live(r) ==> (r.id in Ids(kept) <==> r in kept)
      ensures r in Alive() <==> Live(r) && r.state == Waiting
    {}

    /** Promotes, compacts, and picks the next entry to dispatch; -1 if there is none. */
    method NextWaitingIndex() returns (best: int)
      requires Keyed()
      modifies this`waitingQueue, (set r | r in waitingQueue)`state
      ensures waitingQueue == Kept(old(waitingQueue), Alive())
      ensures Promoted(old(waitingQueue))
      ensures if best < 0 then waitingQueue == [] else best < |waitingQueue| && IsNext(ItemsOf(waitingQueue), best)
      ensures old(Valid()) ==> Valid() && waitingQueue == old(waitingQueue)
    {
      hide Kept, IsNext, ItemsOf, Promoted;
      PromoteAndCompact();
      best := ScanNext(waitingQueue);
    }

    method PromoteAndCompact()
      requires Keyed()
      modifies this`waitingQueue, (set r | r in waitingQueue)`state
      ensures waitingQueue == Kept(old(waitingQueue), Alive())
      ensures Promoted(old(waitingQueue))
      ensures old(Valid()) ==> Valid() && waitingQueue == old(waitingQueue)
    {
      PromotePrioritized();
      if old(Valid()) { AllKept(); }
      hide Kept;
      Compact();
    }

    /** In a queue in order with nothing left to promote, compacting drops nothing. */
    lemma AllKept()
      requires Valid() && forall r :: r in waitingQueue ==> r.state == Waiting
      ensures Kept(waitingQueue, Alive()) == waitingQueue
    {
      KeepsAll(waitingQueue, Alive());
    }

    /** Entries that were prioritized jobs of the store are waiting now; all other states are as before. */
    twostate predicate Promoted(q: seq<JobRecord>)
      reads this`jobs, q
    {
      forall r :: r in q ==> r.state == (if old(r.state) == Prioritized && old(Live(r)) then Waiting else old(r.state))
    }

    method HasWaiting() returns (has: bool)
      requires Valid()
      modifies this`waitingQueue, (set r | r in waitingQueue)`state
      ensures Valid() && waitingQueue == old(waitingQueue) && Promoted(waitingQueue) && has == (waitingQueue != [])
    {
      var best := NextWaitingIndex();
      has := best >= 0;
    }

    method Splice(i: nat) returns (r: JobRecord)
      requires i < |waitingQueue|
      modifies this`waitingQueue
      ensures r == old(waitingQueue[i]) && waitingQueue == old(waitingQueue[..i] + waitingQueue[i + 1..])
      ensures old(Valid()) ==> ValidBut({r})
      ensures forall x :: x in waitingQueue ==> x in old(waitingQueue)
    {
      r := waitingQueue[i];
      waitingQueue := waitingQueue[..i] + waitingQueue[i + 1..];
    }

    /** Takes the head of the dispatch order of the waiting jobs and leaves its tail. */
    method TakeNextWaiting() returns (taken: Option<JobRecord>)
      requires Keyed()
      modifies this`waitingQueue, (set r | r in waitingQueue)`state
      ensures Promoted(old(waitingQueue))
      ensures taken.None? ==> Kept(old(waitingQueue), Alive()) == [] == waitingQueue
      ensures taken.Some? ==>
                DispatchOrder(ItemsOf(Kept(old(waitingQueue), Alive()))) == [taken.value.ToItem()] + DispatchOrder(ItemsOf(waitingQueue))
      ensures taken.Some? ==> TookFirst(Kept(old(waitingQueue), Alive()), taken.value, waitingQueue)
      ensures taken.Some? ==> taken.value in Alive() && taken.value in old(waitingQueue)
      ensures taken.Some? ==> |waitingQueue| < |Kept(old(waitingQueue), Alive())|
      ensures old(Valid()) ==> Kept(old(waitingQueue), Alive()) == old(waitingQueue)
      ensures old(Valid()) ==> ValidBut(if taken.Some? then {taken.value} else {})
    {
      hide Kept, IsNext, ItemsOf, DispatchOrder, Without, Promoted, ValidBut, Keyed, Live;
      var best := NextWaitingIndex();
      if best < 0 { return None; }
      NextIsHead(ItemsOf(waitingQueue), best);
      TakenItems(waitingQueue, best);
      assert waitingQueue[best] in waitingQueue;
      var r := Splice(best);
      taken := Some(r);
    }

    /** Dispatches one job: the head of the order becomes active. */
    method DispatchNext() returns (taken: Option<JobRecord>)
      requires Valid()
      modifies this`waitingQueue, (set r | r in waitingQueue)`state
      ensures Valid() && (taken.None? <==> old(waitingQueue) == [])
      ensures taken.None? ==> waitingQueue == []
      ensures taken.Some? ==> taken.value in old(waitingQueue) && Live(taken.value) && taken.value.state == Active
      ensures taken.Some? ==> |waitingQueue| < |old(waitingQueue)| && TookFirst(old(waitingQueue), taken.value, waitingQueue)
      ensures taken.Some? ==> DispatchOrder(old(ItemsOf(waitingQueue))) == [taken.value.ToItem()] + DispatchOrder(ItemsOf(waitingQueue))
      ensures forall r :: r in waitingQueue ==> r in old(waitingQueue)
    {
      hide DispatchOrder, ItemsOf, Kept;
      taken := TakeNextWaiting();
      if taken.Some? { taken.value.state := Active; }
    }

    /** Draining dispatches exactly the list the order computes up front. */
    method DispatchAll() returns (taken: seq<Item>)
      requires Valid()
      modifies this`waitingQueue, (set r | r in waitingQueue)`state
      ensures Valid() && waitingQueue == []
      ensures taken == DispatchOrder(old(ItemsOf(waitingQueue)))
    {
      hide DispatchOrder, ItemsOf, Kept, ValidBut;
      taken := [];
      ghost var all := waitingQueue;
      var next := DispatchNext();
      while next.Some?
        invariant Valid() && forall r :: r in waitingQueue ==> r in all
        invariant next.Some? ==> next.value in all
        invariant next.None? ==> waitingQueue == []
        invariant DispatchOrder(old(ItemsOf(waitingQueue))) ==
                  taken + (if next.Some? then [next.value.ToItem()] else []) + DispatchOrder(ItemsOf(waitingQueue))
        decreases |waitingQueue| + if next.Some? then 1 else 0
      {
        taken := taken + [next.value.ToItem()];
        next := DispatchNext();
      }
      NothingLeft();
    }

    /** The waiting jobs of the store that have no entry, in map order. */
    ghost function WithoutEntry(order: seq<string>): (r: seq<JobRecord>)
      requires forall id :: id in order ==> id in jobs
      reads this`jobs, this`waitingQueue, jobs.Values
    {
      if order == [] then []
      else
        var rest, x := WithoutEntry(order[..|order| - 1]), jobs[order[|order| - 1]];
        if x.state == Waiting && x !in waitingQueue then rest + [x] else rest
    }

    /** A valid queue misses none. */
    lemma {:induction false} NoneWithoutEntry(order: seq<string>)
      requires Valid() && forall id :: id in order ==> id in jobs
      ensures WithoutEntry(order) == []
    {
      if order != [] { NoneWithoutEntry(order[..|order| - 1]); }
    }

    /** `order` lists the keys of the store, each once. */
    ghost predicate KeysInOrder(order: seq<string>)
      reads this`jobs
    {
      (forall id :: id in order <==> id in jobs) && NoRepeats(order)
    }

    /** The waiting jobs as getJobs lists them: computed from the live entries and any waiting job without one. */
    method WaitingInDispatchOrder(order: seq<string>) returns (listed: seq<Item>)
      requires Keyed() && KeysInOrder(order)
      ensures listed == DispatchOrder(ItemsOf(Kept(waitingQueue, Alive()) + WithoutEntry(order)))
      ensures Valid() ==> listed == DispatchOrder(ItemsOf(Kept(waitingQueue, Alive())))
      ensures Valid() && (forall r :: r in waitingQueue ==> r.state == Waiting) ==> listed == DispatchOrder(ItemsOf(waitingQueue))
    {
      hide Kept, ItemsOf, WithoutEntry, Keyed, ValidBut, DispatchOrder, KeysInOrder;
      var live := WaitingRecords(order);
      var items := Snapshot(live);
      listed := Arrange(items);
      if Valid() { ListedWhenValid(order); }
    }

    static method Arrange(items: seq<Item>) returns (listed: seq<Item>)
      ensures listed == DispatchOrder(items)
    {
      listed := StableSort(InLane(items, Priority)) + Reversed(InLane(items, Lifo)) + InLane(items, Fifo);
    }

    lemma ListedWhenValid(order: seq<string>)
      requires Valid() && KeysInOrder(order)
      ensures Kept(waitingQueue, Alive()) + WithoutEntry(order) == Kept(waitingQueue, Alive())
      ensures (forall r :: r in waitingQueue ==> r.state == Waiting) ==> Kept(waitingQueue, Alive()) == waitingQueue
    {
      hide Kept;
      NoneWithoutEntry(order);
      if forall r :: r in waitingQueue ==> r.state == Waiting { AllKept(); }
    }

    method WaitingRecords(order: seq<string>) returns (live: seq<JobRecord>)
      requires Keyed() && KeysInOrder(order)
      ensures live == Kept(waitingQueue, Alive()) + WithoutEntry(order)
    {
      hide Kept;
      var seen;
      live, seen := LiveEntries();
      ghost var entries := live;
      for i := 0 to |order|
        invariant live == entries + WithoutEntry(order[..i])
      {
        var record := jobs[order[i]];
        assert order[..i + 1][..i] == order[..i];
        SeenById(entries, record);
        if record.state == Waiting && record.id !in seen { live := live + [record]; }
      }
      assert order[..|order|] == order;
    }

    static method Snapshot(live: seq<JobRecord>) returns (items: seq<Item>)
      ensures items == ItemsOf(live)
    {
      items := [];
      for i := 0 to |live|
        invariant items == ItemsOf(live[..i])
      {
        assert live[..i + 1][..i] == live[..i];
        items := items + [live[i].ToItem()];
      }
      assert live[..|live|] == live;
    }

    method LiveEntries() returns (live: seq<JobRecord>, seen: set<string>)
      requires Keyed()
      ensures live == Kept(waitingQueue, Alive()) && seen == Ids(live)
    {
      hide Kept;
      live, seen := [], {};
      KeptNothing(Alive());
      for i := 0 to |waitingQueue|
        invariant live == Kept(waitingQueue[..i], Alive()) && seen == Ids(live)
      {
        var record := waitingQueue[i];
        KeptStep(waitingQueue, i, Alive());
        SeenById(live, record);
        if record.state == Waiting && Live(record) && record.id !in seen {
          seen := seen + {record.id};
          live := live + [record];
        }
      }
      assert waitingQueue[..|waitingQueue|] == waitingQueue;
    }

    // ---- Operations on the queue ----

    /** Creates a record: a flow parent waits for its children, a delayed job is parked, any other is queued. */
    method InsertRecord(id: string, priority: nat, lifo: bool, waitsForChildren: bool, delay: nat) returns (record: JobRecord)
      requires Valid() && id !in jobs
      modifies this
      ensures Valid() && fresh(record) && jobs == old(jobs)[id := record]
      ensures record.id == id && record.priority == priority && record.lifo == lifo
      ensures record.state == if waitsForChildren then WaitingChildren else if delay > 0 then Delayed else if priority > 0 then Prioritized else Waiting
      ensures waitingQueue == if Queued(record.state) then old(waitingQueue) + [record] else old(waitingQueue)
    {
      record := new JobRecord(id, priority, lifo);
      record.state := if waitsForChildren then WaitingChildren else Delayed;
      Store(record);
      NoEntry(waitingQueue, {record.id});
      if waitsForChildren {
      } else if delay > 0 {
        ParkDelayed(record);
      } else if priority > 0 {
        EnqueuePrioritized(record);
      } else {
        EnqueueWaiting(record);
      }
    }

    method Store(record: JobRecord)
      requires Valid() && record.id !in jobs && !Queued(record.state)
      modifies this`jobs
      ensures Valid() && jobs == old(jobs)[record.id := record] && forall r :: r in waitingQueue ==> r.id != record.id
    {
      assert forall r :: r in waitingQueue ==> r.id in jobs;
      jobs := jobs[record.id := record];
    }

    method RemoveJob(id: string) returns (removed: bool)
      requires Valid()
      modifies this
      ensures Valid() && removed == (id in old(jobs)) && jobs == old(jobs) - {id}
      ensures waitingQueue == DropIds(old(waitingQueue), {id})
    {
      if id !in jobs {
        assert jobs - {id} == jobs;
        NoEntry(waitingQueue, {id});
        return false;
      }
      DequeueRecord(jobs[id]);
      jobs := jobs - {id};
      return true;
    }

    /** A job that has not started is failed, any other existing one only flagged. */
    method Revoke(id: string) returns (outcome: string)
      requires Valid()
      modifies this`waitingQueue, (if id in jobs then {jobs[id]} else {})`state
      ensures Valid()
      ensures outcome == if id !in jobs then "not_found" else if Queued(old(jobs[id].state)) || old(jobs[id].state) == Delayed then "revoked" else "flagged"
      ensures outcome == "revoked" ==> jobs[id].state == Failed && waitingQueue == DropIds(old(waitingQueue), {id})
      ensures outcome != "revoked" ==> waitingQueue == old(waitingQueue) && (id in jobs ==> jobs[id].state == old(jobs[id].state))
    {
      if id !in jobs { return "not_found"; }
      var record := jobs[id];
      if record.state == Waiting || record.state == Delayed || record.state == Prioritized {
        DequeueRecord(record);
        record.state := Failed;
        return "revoked";
      }
      return "flagged";
    }

    method Obliterate(force: bool) returns (done: bool)
      requires Valid()
      modifies this
      ensures Valid() && (done <==> force || forall id :: id in old(jobs) ==> old(jobs[id].state) != Active)
      ensures if done then jobs == map[] && waitingQueue == [] else jobs == old(jobs) && waitingQueue == old(waitingQueue)
    {
      if !force && exists id :: id in jobs && jobs[id].state == Active { return false; }
      jobs, waitingQueue := map[], [];
      return true;
    }

    /** Removes the waiting jobs, and the delayed and prioritized ones if asked; prioritized survivors keep their entries. */
    method Drain(delayed: bool)
      requires Valid()
      modifies this
      ensures Valid()
      ensures forall id :: id in jobs <==> id in old(jobs) && old(jobs[id].state) != Waiting
                                           && !(delayed && (old(jobs[id].state) == Delayed || old(jobs[id].state) == Prioritized))
      ensures forall id :: id in jobs ==> jobs[id] == old(jobs[id])
      ensures waitingQueue == DropIds(old(waitingQueue), old(jobs).Keys - jobs.Keys)
    {
      hide DropIds;
      var toRemove := set id | id in jobs && Drained(jobs[id].state, delayed);
      jobs := jobs - toRemove;
      assert old(jobs).Keys - jobs.Keys == toRemove;
      var survivors: seq<JobRecord> := [];
      DropNothing(toRemove);
      for i := 0 to |waitingQueue|
        invariant jobs == old(jobs) - toRemove && waitingQueue == old(waitingQueue)
        invariant survivors == DropIds(waitingQueue[..i], toRemove)
      {
        var r := waitingQueue[i];
        assert r in old(waitingQueue);
        DropStep(waitingQueue, i, toRemove);
        if r.state == Prioritized && Live(r) { survivors := survivors + [r]; }
      }
      assert waitingQueue[..|waitingQueue|] == waitingQueue;
      waitingQueue := survivors;
    }

    method RetryRecord(record: JobRecord)
      requires Valid() && Live(record)
      modifies this`waitingQueue, record`state
      ensures Valid() && record.state == Waiting
      ensures waitingQueue == DropIds(old(waitingQueue), {record.id}) + [record]
    {
      EnqueueWaiting(record);
    }

    /** The delay timer fires; the job may be gone or have left the delayed state. */
    method PromotionDue(record: JobRecord)
      requires Valid()
      modifies this`waitingQueue, record`state
      ensures Valid()
      ensures if old(Live(record)) && old(record.state) == Delayed then record.state == Waiting && waitingQueue == old(waitingQueue) + [record]
              else record.state == old(record.state) && waitingQueue == old(waitingQueue)
    {
      if !Live(record) || record.state != Delayed { return; }
      NotQueued(record);
      DequeueRecord(record);
      record.state := Waiting;
      waitingQueue := waitingQueue + [record];
    }

    method ReleaseDelayed(record: JobRecord, toPrioritized: bool)
      requires Valid() && Live(record)
      modifies this`waitingQueue, record`state
      ensures Valid() && record.state == if toPrioritized then Prioritized else Waiting
      ensures waitingQueue == DropIds(old(waitingQueue), {record.id}) + [record]
    {
      if toPrioritized {
        EnqueuePrioritized(record);
        return;
      }
      EnqueueWaiting(record);
    }

    /** Resumes a suspended job without looking for an older entry. */
    method Signal(id: string) returns (resumed: bool)
      requires Valid()
      modifies this`waitingQueue, (if id in jobs then {jobs[id]} else {})`state
      ensures Valid() && (resumed <==> id in jobs && old(jobs[id].state) == Suspended)
      ensures if resumed then jobs[id].state == Waiting && waitingQueue == old(waitingQueue) + [jobs[id]]
              else waitingQueue == old(waitingQueue) && (id in jobs ==> jobs[id].state == old(jobs[id].state))
    {
      if id !in jobs || jobs[id].state != Suspended { return false; }
      jobs[id].state := Waiting;
      waitingQueue := waitingQueue + [jobs[id]];
      return true;
    }

    /** The suspend timeout fires. */
    method SuspendedTooLong(id: string)
      requires Valid()
      modifies (if id in jobs then {jobs[id]} else {})`state
      ensures Valid() && (id in jobs ==> jobs[id].state == if old(jobs[id].state) == Suspended then Failed else old(jobs[id].state))
    {
      if id !in jobs || jobs[id].state != Suspended { return; }
      jobs[id].state := Failed;
    }

    // ---- Operations on a job ----

    /** Waiting turns into prioritized when the new priority is positive, and back when it is zero, in place. */
    method ChangePriority(id: string, newPriority: nat) returns (r: Result<(), string>)
      requires Valid()
      modifies if id in jobs then {jobs[id]} else {}
      ensures Valid()
      ensures r.Ok? <==> id in jobs && (Queued(old(jobs[id].state)) || old(jobs[id].state) == Delayed)
      ensures r.Ok? ==> jobs[id].priority == newPriority
      ensures r.Ok? ==> jobs[id].state == if old(jobs[id].state) == Delayed then Delayed else if newPriority > 0 then Prioritized else Waiting
      ensures r.Err? && id in jobs ==> jobs[id].state == old(jobs[id].state) && jobs[id].priority == old(jobs[id].priority)
    {
      if id !in jobs { return Err("not_found"); }
      var record := jobs[id];
      if record.state == Waiting {
        if newPriority == 0 && record.priority == 0 { return Ok(()); }
        if newPriority > 0 { record.state := Prioritized; }
      } else if record.state == Prioritized {
        if newPriority == 0 { record.state := Waiting; }
      } else if record.state != Delayed {
        return Err("invalid_state");
      }
      record.priority := newPriority;
      r := Ok(());
    }

    method ChangeDelay(id: string, newDelay: nat) returns (r: Result<(), string>)
      requires Valid()
      modifies this`waitingQueue, (if id in jobs then {jobs[id]} else {})`state
      ensures Valid()
      ensures r.Ok? <==> id in jobs && (Queued(old(jobs[id].state)) || old(jobs[id].state) == Delayed)
      ensures r.Ok? ==> jobs[id].state == if newDelay > 0 then Delayed
                                          else if old(jobs[id].state) != Delayed then old(jobs[id].state)
                                          else if jobs[id].priority > 0 then Prioritized
                                          else Waiting
      ensures r.Err? && id in jobs ==> jobs[id].state == old(jobs[id].state)
      ensures waitingQueue == if r.Err? then old(waitingQueue)
                              else if newDelay > 0 then DropIds(old(waitingQueue), {id})
                              else if old(jobs[id].state) == Delayed then old(waitingQueue) + [jobs[id]]
                              else old(waitingQueue)
    {
      if id !in jobs { return Err("not_found"); }
      var record := jobs[id];
      if record.state == Delayed { NotQueued(record); }
      if record.state == Delayed {
        if newDelay == 0 { ReleaseDelayed(record, record.priority > 0); } else { ParkDelayed(record); }
      } else if record.state == Waiting || record.state == Prioritized {
        if newDelay == 0 { return Ok(()); }
        ParkDelayed(record);
      } else {
        return Err("invalid_state");
      }
      r := Ok(());
    }

    method Promote(id: string) returns (r: Result<(), string>)
      requires Valid()
      modifies this`waitingQueue, (if id in jobs then {jobs[id]} else {})`state
      ensures Valid() && (r.Ok? <==> id in jobs && old(jobs[id].state) == Delayed)
      ensures if r.Ok? then jobs[id].state == Waiting && waitingQueue == old(waitingQueue) + [jobs[id]]
              else waitingQueue == old(waitingQueue) && (id in jobs ==> jobs[id].state == old(jobs[id].state))
    {
      if id !in jobs { return Err("not_found"); }
      if jobs[id].state != Delayed { return Err("not_delayed"); }
      NotQueued(jobs[id]);
      ReleaseDelayed(jobs[id], false);
      r := Ok(());
    }

    // ---- What becomes of a running job ----

    /** The running processor suspends its own job. */
    method Suspend(record: JobRecord)
      requires Valid() && record.state == Active
      modifies record`state
      ensures Valid() && record.state == Suspended
    {
      record.state := Suspended;
    }

    /** A completion; a record that left the store in the meantime is not touched. */
    method Complete(record: JobRecord)
      requires Valid() && record.state == Active
      modifies record`state
      ensures Valid() && record.state == if Live(record) then Completed else Active
    {
      if !Live(record) { return; }
      record.state := Completed;
    }

    /** A failed attempt: parked for the next one, or failed for good. */
    method HandleFailure(record: JobRecord, retry: bool)
      requires Valid() && record.state == Active
      modifies this`waitingQueue, record`state
      ensures Valid() && record.state == if !Live(record) then Active else if retry then Delayed else Failed
      ensures waitingQueue == old(waitingQueue)
    {
      if !Live(record) { return; }
      NotQueued(record);
      if retry {
        ParkDelayed(record);
        return;
      }
      record.state := Failed;
    }

    /** The processor asked to wait for children: straight back to waiting if none is pending. */
    method ParkWaitingChildren(record: JobRecord, pending: int)
      requires Valid() && Live(record) && record.state == Active
      modifies this`waitingQueue, record`state
      ensures Valid() && record.state == if pending <= 0 then Waiting else WaitingChildren
      ensures waitingQueue == if pending <= 0 then old(waitingQueue) + [record] else old(waitingQueue)
    {
      NotQueued(record);
      if pending <= 0 {
        EnqueueWaiting(record);
        return;
      }
      record.state := WaitingChildren;
    }

    /** A child finished; with none pending any more its parent joins the queue. */
    method ReleaseParent(parent: JobRecord, pending: int)
      requires Valid() && Live(parent)
      modifies this`waitingQueue, parent`state
      ensures Valid()
      ensures if old(parent.state) == WaitingChildren && pending <= 0 then parent.state == Waiting && waitingQueue == old(waitingQueue) + [parent]
              else parent.state == old(parent.state) && waitingQueue == old(waitingQueue)
    {
      if parent.state == WaitingChildren { NotQueued(parent); }
      if parent.state == WaitingChildren && pending <= 0 { EnqueueWaiting(parent); }
    }

    /** Retention or cleaning drops finished jobs from the store. */
    method Forget(ids: set<string>)
      requires Valid() && forall id :: id in ids && id in jobs ==> jobs[id].state == Completed || jobs[id].state == Failed
      modifies this`jobs
      ensures Valid() && jobs == old(jobs) - ids
    {
      jobs := jobs - ids;
    }
  }

  lemma NothingLeft()
    ensures DispatchOrder(ItemsOf([])) == []
  {}

  lemma TakenItems(q: seq<JobRecord>, i: nat)
    requires i < |q|
    ensures ItemsOf(q[..i] + q[i + 1..]) == Without(ItemsOf(q), i)
  {
    hide ItemsOf;
    var left, right := ItemsOf(q[..i] + q[i + 1..]), Without(ItemsOf(q), i);
    forall k | 0 <= k < |left| ensures left[k] == right[k] {
      assert left[k] == (q[..i] + q[i + 1..])[k].ToItem();
    }
  }

  /** The scan for the next entry: the first one of the least priority, else the last LIFO one, else the first. */
  method ScanNext(q: seq<JobRecord>) returns (best: int)
    ensures if best < 0 then q == [] else best < |q| && IsNext(ItemsOf(q), best)
  {
    best := -1;
    var bestPriority: Option<nat> := None;
    var lifo := -1;
    for i := 0 to |q|
      invariant -1 <= best < i && -1 <= lifo < i
      invariant bestPriority == if best < 0 then None else Some(q[best].priority)
      invariant best < 0 ==> forall j :: 0 <= j < i ==> LaneOf(q[j].ToItem()) != Priority
      invariant best >= 0 ==> LaneOf(q[best].ToItem()) == Priority
      invariant best >= 0 ==> forall j :: 0 <= j < i && LaneOf(q[j].ToItem()) == Priority ==> q[j].priority >= q[best].priority
      invariant best >= 0 ==> forall j :: 0 <= j < best && LaneOf(q[j].ToItem()) == Priority ==> q[j].priority > q[best].priority
      invariant lifo >= 0 ==> q[lifo].lifo
      invariant forall j :: lifo < j < i ==> !q[j].lifo
    {
      if q[i].lifo {
        lifo := i;
      } else if q[i].priority > 0 && (bestPriority.None? || q[i].priority < bestPriority.value) {
        bestPriority := Some(q[i].priority);
        best := i;
      }
    }
    if best < 0 { best := lifo; }
    if best < 0 { best := if |q| > 0 then 0 else -1; }
  }

  predicate Drained(s: JobState, delayed: bool) {
    s == Waiting || (delayed && (s == Delayed || s == Prioritized))
  }
}
