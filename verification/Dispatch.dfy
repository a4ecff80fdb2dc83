/** The order in which waiting jobs are dispatched: the prioritized ones, then the newest LIFO job, then by arrival. */
module Dispatch {
  /** What the order depends on; a priority of 0 means none. */
  datatype Item = Item(id: string, priority: nat, lifo: bool)

  datatype Lane = Priority | Lifo | Fifo

  function LaneOf(x: Item): Lane {
    if x.lifo then Lifo else if x.priority > 0 then Priority else Fifo
  }

  function InLane(q: seq<Item>, lane: Lane): (r: seq<Item>)
    ensures forall x :: x in r <==> x in q && LaneOf(x) == lane
  {
    if q == [] then []
    else (if LaneOf(q[0]) == lane then [q[0]] else []) + InLane(q[1..], lane)
  }

  function Reversed(q: seq<Item>): (r: seq<Item>)
    ensures |r| == |q|
  {
    if q == [] then [] else Reversed(q[1..]) + [q[0]]
  }

  /** Behind everything of the same or a lower priority number. */
  function Insert(sorted: seq<Item>, x: Item): (r: seq<Item>)
    ensures |r| == |sorted| + 1
  {
    if sorted == [] || sorted[0].priority > x.priority then [x] + sorted
    else [sorted[0]] + Insert(sorted[1..], x)
  }

  function StableSort(q: seq<Item>): (r: seq<Item>)
    ensures |r| == |q|
  {
    if q == [] then [] else Insert(StableSort(q[..|q| - 1]), q[|q| - 1])
  }

  /** The list that is computed up front by sorting, reversing and filtering. */
  function DispatchOrder(q: seq<Item>): seq<Item> {
    StableSort(InLane(q, Priority)) + Reversed(InLane(q, Lifo)) + InLane(q, Fifo)
  }

  // ---- The sort is a stable sort ----

  ghost predicate Sorted(q: seq<Item>) {
    forall i, j :: 0 <= i < j < |q| ==> q[i].priority <= q[j].priority
  }

  function OfPriority(q: seq<Item>, p: nat): seq<Item> {
    if q == [] then []
    else (if q[0].priority == p then [q[0]] else []) + OfPriority(q[1..], p)
  }

  lemma {:induction false} OfPriorityConcat(a: seq<Item>, b: seq<Item>, p: nat)
    ensures OfPriority(a + b, p) == OfPriority(a, p) + OfPriority(b, p)
  {
    if a == [] {
      assert a + b == b;
    } else {
      OfPriorityConcat(a[1..], b, p);
      var own := if a[0].priority == p then [a[0]] else [];
      assert (a + b)[1..] == a[1..] + b && (a + b)[0] == a[0];
      assert OfPriority(a + b, p) == own + OfPriority(a[1..] + b, p);
    }
  }

  lemma {:induction false} InsertItems(sorted: seq<Item>, x: Item)
    ensures forall y :: y in Insert(sorted, x) <==> y in sorted || y == x
    decreases |sorted|
  {
    if sorted != [] && sorted[0].priority <= x.priority { InsertItems(sorted[1..], x); }
  }

  lemma {:induction false} InsertSorted(sorted: seq<Item>, x: Item)
    requires Sorted(sorted)
    ensures Sorted(Insert(sorted, x))
    decreases |sorted|
  {
    if sorted != [] && sorted[0].priority <= x.priority {
      InsertSorted(sorted[1..], x);
      InsertItems(sorted[1..], x);
      var rest := Insert(sorted[1..], x);
      forall j | 0 <= j < |rest| ensures sorted[0].priority <= rest[j].priority { assert rest[j] in rest; }
    }
  }

  lemma {:induction false} InsertOfPriority(sorted: seq<Item>, x: Item, p: nat)
    requires Sorted(sorted)
    ensures OfPriority(Insert(sorted, x), p) == OfPriority(sorted + [x], p)
    decreases |sorted|
  {
    OfPriorityConcat(sorted, [x], p);
    if sorted == [] || sorted[0].priority > x.priority {
      OfPriorityConcat([x], sorted, p);
      if x.priority == p { NoneOfPriority(sorted, p); }
    } else {
      InsertOfPriority(sorted[1..], x, p);
      OfPriorityConcat(sorted[1..], [x], p);
    }
  }

  lemma {:induction false} NoneOfPriority(q: seq<Item>, p: nat)
    requires forall y :: y in q ==> y.priority != p
    ensures OfPriority(q, p) == []
  {
    if q != [] { NoneOfPriority(q[1..], p); }
  }

  /** Ascending, and within each priority exactly the items in their old order. */
  lemma {:induction false} StableSortIsStable(q: seq<Item>, p: nat)
    ensures Sorted(StableSort(q)) && OfPriority(StableSort(q), p) == OfPriority(q, p)
    decreases |q|
  {
    if q != [] {
      var init, x := q[..|q| - 1], q[|q| - 1];
      StableSortIsStable(init, p);
      InsertSorted(StableSort(init), x);
      InsertOfPriority(StableSort(init), x, p);
      OfPriorityConcat(StableSort(init), [x], p);
      OfPriorityConcat(init, [x], p);
      assert init + [x] == q;
    }
  }

  // ---- Taking the next item ----

  lemma {:induction false} LaneConcat(a: seq<Item>, b: seq<Item>, lane: Lane)
    ensures InLane(a + b, lane) == InLane(a, lane) + InLane(b, lane)
  {
    if a == [] {
      assert a + b == b;
    } else {
      assert (a + b)[1..] == a[1..] + b;
      LaneConcat(a[1..], b, lane);
    }
  }

  lemma OneInLane(x: Item, lane: Lane)
    ensures InLane([x], lane) == if LaneOf(x) == lane then [x] else []
  {
    assert [x][1..] == [];
    assert InLane([x], lane) == (if LaneOf(x) == lane then [x] else []) + InLane([], lane);
  }

  /** Removing an item takes it out of its own lane ... */
  lemma OwnLane(a: seq<Item>, x: Item, b: seq<Item>)
    ensures InLane(a + [x] + b, LaneOf(x)) == InLane(a, LaneOf(x)) + [x] + InLane(b, LaneOf(x))
    ensures InLane(a + b, LaneOf(x)) == InLane(a, LaneOf(x)) + InLane(b, LaneOf(x))
  {
    hide InLane;
    LaneConcat(a + [x], b, LaneOf(x));
    LaneConcat(a, [x], LaneOf(x));
    LaneConcat(a, b, LaneOf(x));
    OneInLane(x, LaneOf(x));
  }

  /** ... and leaves the others alone. */
  lemma OtherLane(a: seq<Item>, x: Item, b: seq<Item>, lane: Lane)
    requires lane != LaneOf(x)
    ensures InLane(a + [x] + b, lane) == InLane(a + b, lane)
  {
    hide InLane;
    LaneConcat(a + [x], b, lane);
    LaneConcat(a, [x], lane);
    LaneConcat(a, b, lane);
    OneInLane(x, lane);
    assert InLane(a, lane) + [] == InLane(a, lane);
  }

  lemma {:induction false} ReversedLast(q: seq<Item>, x: Item)
    ensures Reversed(q + [x]) == [x] + Reversed(q)
  {
    if q == [] {
      assert q + [x] == [x];
    } else {
      assert (q + [x])[1..] == q[1..] + [x];
      ReversedLast(q[1..], x);
    }
  }

  /** The first item of the least priority comes first in the sorted list, and the rest is sorted without it. */
  lemma {:induction false} FirstLeastComesFirst(a: seq<Item>, x: Item, b: seq<Item>)
    requires forall y :: y in a ==> y.priority > x.priority
    requires forall y :: y in b ==> y.priority >= x.priority
    ensures StableSort(a + [x] + b) == [x] + StableSort(a + b)
    decreases |b|
  {
    if b == [] {
      assert a + [x] + b == a + [x] && a + b == a;
      assert (a + [x])[..|a|] == a;
      SortKeepsItems(a);
    } else {
      var init, y := b[..|b| - 1], b[|b| - 1];
      FirstLeastComesFirst(a, x, init);
      assert (a + [x] + b)[..|a + [x] + b| - 1] == a + [x] + init;
      assert (a + b)[..|a + b| - 1] == a + init;
      assert (a + [x] + b)[|a + [x] + b| - 1] == y && (a + b)[|a + b| - 1] == y;
      assert y in b;
      assert ([x] + StableSort(a + init))[1..] == StableSort(a + init);
    }
  }

  lemma {:induction false} SortKeepsItems(q: seq<Item>)
    ensures forall y :: y in StableSort(q) <==> y in q
    decreases |q|
  {
    if q != [] {
      SortKeepsItems(q[..|q| - 1]);
      InsertItems(StableSort(q[..|q| - 1]), q[|q| - 1]);
      assert q == q[..|q| - 1] + [q[|q| - 1]];
    }
  }

  /** A positive priority counts unless the job is LIFO. */
  predicate Prioritized(x: Item) {
    x.priority > 0 && !x.lifo
  }

  /** The item at `i` goes before the one at `j`: prioritized ones first, the lowest number first and equal numbers in
      queue order; then LIFO ones, the latest first; then the others in queue order.
  */
  predicate Ahead(q: seq<Item>, i: nat, j: nat)
    requires i < |q| && j < |q|
  {
    if Prioritized(q[i]) && Prioritized(q[j]) then q[i].priority < q[j].priority || (q[i].priority == q[j].priority && i < j)
    else if Prioritized(q[i]) || Prioritized(q[j]) then Prioritized(q[i])
    else if q[i].lifo && q[j].lifo then i > j
    else if q[i].lifo || q[j].lifo then q[i].lifo
    else i < j
  }

  /** Item `i` goes before all others. */
  ghost predicate IsNext(q: seq<Item>, i: nat) {
    i < |q| && forall j :: 0 <= j < |q| && j != i ==> Ahead(q, i, j)
  }

  /** The same, lane by lane. */
  ghost predicate HeadOfLane(q: seq<Item>, i: nat) {
    && i < |q|
    && match LaneOf(q[i])
       case Priority =>
         && (forall j :: 0 <= j < i && LaneOf(q[j]) == Priority ==> q[j].priority > q[i].priority)
         && (forall j :: i < j < |q| && LaneOf(q[j]) == Priority ==> q[j].priority >= q[i].priority)
       case Lifo =>
         && (forall j :: 0 <= j < |q| ==> LaneOf(q[j]) != Priority)
         && (forall j :: i < j < |q| ==> LaneOf(q[j]) != Lifo)
       case Fifo => i == 0 && forall j :: 0 <= j < |q| ==> LaneOf(q[j]) == Fifo
  }

  lemma NextLane(q: seq<Item>, i: nat)
    ensures IsNext(q, i) <==> HeadOfLane(q, i)
  {
    if IsNext(q, i) { NextHeads(q, i); }
    if HeadOfLane(q, i) {
      forall j | 0 <= j < |q| && j != i ensures Ahead(q, i, j) {
        assert LaneOf(q[j]) == Priority || LaneOf(q[j]) == Lifo || LaneOf(q[j]) == Fifo;
      }
    }
  }

  lemma NextHeads(q: seq<Item>, i: nat)
    requires IsNext(q, i)
    ensures HeadOfLane(q, i)
  {
    match LaneOf(q[i])
    case Priority =>
      forall j | 0 <= j < i && LaneOf(q[j]) == Priority ensures q[j].priority > q[i].priority { assert Ahead(q, i, j); }
      forall j | i < j < |q| && LaneOf(q[j]) == Priority ensures q[j].priority >= q[i].priority { assert Ahead(q, i, j); }
    case Lifo =>
      forall j | 0 <= j < |q| ensures LaneOf(q[j]) != Priority { assert j != i ==> Ahead(q, i, j); }
      forall j | i < j < |q| ensures LaneOf(q[j]) != Lifo { assert Ahead(q, i, j); }
    case Fifo =>
      assert i > 0 ==> Ahead(q, i, 0);
      forall j | 0 <= j < |q| ensures LaneOf(q[j]) == Fifo { assert j != i ==> Ahead(q, i, j); }
  }

  function Without(q: seq<Item>, i: nat): seq<Item>
    requires i < |q|
  {
    q[..i] + q[i + 1..]
  }

  lemma NextOfPriority(a: seq<Item>, x: Item, b: seq<Item>)
    requires HeadOfLane(a + [x] + b, |a|) && LaneOf(x) == Priority
    ensures StableSort(InLane(a, Priority) + [x] + InLane(b, Priority)) == [x] + StableSort(InLane(a, Priority) + InLane(b, Priority))
  {
    var q := a + [x] + b;
    forall y | y in InLane(a, Priority) ensures y.priority > x.priority {
      var j :| 0 <= j < |a| && a[j] == y;
      assert q[j] == y;
    }
    forall y | y in InLane(b, Priority) ensures y.priority >= x.priority {
      var j :| 0 <= j < |b| && b[j] == y;
      assert q[|a| + 1 + j] == y;
    }
    FirstLeastComesFirst(InLane(a, Priority), x, InLane(b, Priority));
  }

  lemma NoLane(q: seq<Item>, lane: Lane)
    requires forall j :: 0 <= j < |q| ==> LaneOf(q[j]) != lane
    ensures InLane(q, lane) == []
  {
    assert forall x :: x in q ==> LaneOf(x) != lane;
  }

  lemma NextOfLifo(a: seq<Item>, x: Item, b: seq<Item>)
    requires HeadOfLane(a + [x] + b, |a|) && LaneOf(x) == Lifo
    ensures InLane(a + [x] + b, Priority) == [] && InLane(b, Lifo) == []
  {
    var q := a + [x] + b;
    assert q[|a|] == x;
    NoLane(q, Priority);
    forall j | 0 <= j < |b| ensures LaneOf(b[j]) != Lifo { assert q[|a| + 1 + j] == b[j]; }
    NoLane(b, Lifo);
  }

  lemma NextOfFifo(a: seq<Item>, x: Item, b: seq<Item>)
    requires HeadOfLane(a + [x] + b, |a|) && LaneOf(x) == Fifo
    ensures a == [] && InLane(a + [x] + b, Priority) == [] && InLane(a + [x] + b, Lifo) == []
  {
    var q := a + [x] + b;
    assert q[|a|] == x;
    NoLane(q, Priority);
    NoLane(q, Lifo);
  }

  lemma TakeHead(a: seq<Item>, x: Item, b: seq<Item>)
    requires HeadOfLane(a + [x] + b, |a|)
    ensures DispatchOrder(a + [x] + b) == [x] + DispatchOrder(a + b)
  {
    OwnLane(a, x, b);
    hide InLane, StableSort, HeadOfLane, Reversed, LaneOf;
    match LaneOf(x) {
      case Priority =>
        OtherLane(a, x, b, Lifo);
        OtherLane(a, x, b, Fifo);
        NextOfPriority(a, x, b);
      case Lifo =>
        OtherLane(a, x, b, Priority);
        OtherLane(a, x, b, Fifo);
        NextOfLifo(a, x, b);
        ReversedLast(InLane(a, Lifo), x);
        assert InLane(a, Lifo) + [x] + [] == InLane(a, Lifo) + [x] && InLane(a, Lifo) + [] == InLane(a, Lifo);
        SortOfNothing();
      case Fifo =>
        OtherLane(a, x, b, Priority);
        OtherLane(a, x, b, Lifo);
        NextOfFifo(a, x, b);
        NothingInLane();
        SortOfNothing();
    }
  }

  lemma SortOfNothing()
    ensures StableSort([]) == [] && Reversed([]) == []
  {}

  lemma NothingInLane()
    ensures forall lane :: InLane([], lane) == []
  {}

  /** Taking the item the scan picks takes the head of the computed order and leaves its tail. */
  lemma NextIsHead(q: seq<Item>, i: nat)
    requires IsNext(q, i)
    ensures DispatchOrder(q) == [q[i]] + DispatchOrder(Without(q, i))
  {
    NextLane(q, i);
    assert q == q[..i] + [q[i]] + q[i + 1..];
    TakeHead(q[..i], q[i], q[i + 1..]);
  }

  // ---- The order, told from priorities and places ----

  lemma {:induction false} SomeNext(q: seq<Item>) returns (i: nat)
    requires q != []
    ensures IsNext(q, i)
    decreases |q|
  {
    var last := |q| - 1;
    if last == 0 { return 0; }
    var init := q[..last];
    i := SomeNext(init);
    forall j | 0 <= j < last && j != i ensures Ahead(q, i, j) { assert Ahead(init, i, j); }
    if Ahead(q, last, i) {
      forall j | 0 <= j < last ensures Ahead(q, last, j) { assert j == i || Ahead(q, i, j); }
      i := last;
    }
  }

  /** Where a place of the queue without item `i` is in the queue. */
  function Shift(i: nat, k: nat): nat {
    if k < i then k else k + 1
  }

  function ShiftAll(i: nat, places: seq<nat>): (r: seq<nat>)
    ensures |r| == |places| && forall k :: 0 <= k < |r| ==> r[k] == Shift(i, places[k])
  {
    if places == [] then [] else ShiftAll(i, places[..|places| - 1]) + [Shift(i, places[|places| - 1])]
  }

  /** `order` lists the items of `q` from these places, each place once and each item ahead of all later ones. */
  ghost predicate InOrder(q: seq<Item>, order: seq<Item>, places: seq<nat>) {
    && |places| == |order| == |q|
    && (forall k :: 0 <= k < |places| ==> places[k] < |q| && order[k] == q[places[k]])
    && (forall a, b :: 0 <= a < b < |places| ==> places[a] != places[b] && Ahead(q, places[a], places[b]))
  }

  lemma AheadShifted(q: seq<Item>, i: nat, a: nat, b: nat)
    requires i < |q| && a < |q| - 1 && b < |q| - 1
    ensures Shift(i, a) < |q| && Shift(i, b) < |q|
    ensures Ahead(Without(q, i), a, b) <==> Ahead(q, Shift(i, a), Shift(i, b))
  {}

  /** The computed order is the queue sorted by who goes before whom. */
  lemma {:induction false} OrderExactly(q: seq<Item>) returns (places: seq<nat>)
    ensures InOrder(q, DispatchOrder(q), places)
    decreases |q|
  {
    hide DispatchOrder, Ahead;
    if q == [] {
      NothingInOrder();
      return [];
    }
    var i := SomeNext(q);
    NextIsHead(q, i);
    var rest := Without(q, i);
    var later := OrderExactly(rest);
    places := [i] + ShiftAll(i, later);
    PlaceFirst(q, i, DispatchOrder(rest), later);
  }

  lemma PlaceFirst(q: seq<Item>, i: nat, order: seq<Item>, later: seq<nat>)
    requires IsNext(q, i) && InOrder(Without(q, i), order, later)
    ensures InOrder(q, [q[i]] + order, [i] + ShiftAll(i, later))
  {
    hide Ahead, ShiftAll;
    var places := [i] + ShiftAll(i, later);
    forall k | 0 <= k < |places| ensures places[k] < |q| && ([q[i]] + order)[k] == q[places[k]] {
      if k > 0 { assert places[k] == Shift(i, later[k - 1]); }
    }
    forall a, b | 0 <= a < b < |places| ensures places[a] != places[b] && Ahead(q, places[a], places[b]) {
      assert places[b] == Shift(i, later[b - 1]);
      if a > 0 {
        assert places[a] == Shift(i, later[a - 1]);
        AheadShifted(q, i, later[a - 1], later[b - 1]);
      }
    }
  }

  lemma NothingInOrder()
    ensures DispatchOrder([]) == []
  {}

  // ---- What removing and appending items does to the order ----

  /** The items with other ids. */
  function DropItems(q: seq<Item>, ids: set<string>): seq<Item> {
    if q == [] then [] else (if q[0].id in ids then [] else [q[0]]) + DropItems(q[1..], ids)
  }

  lemma {:induction false} DropConcat(a: seq<Item>, b: seq<Item>, ids: set<string>)
    ensures DropItems(a + b, ids) == DropItems(a, ids) + DropItems(b, ids)
  {
    if a == [] {
      assert a + b == b;
    } else {
      assert (a + b)[1..] == a[1..] + b;
      DropConcat(a[1..], b, ids);
    }
  }

  lemma DropOne(x: Item, ids: set<string>)
    ensures DropItems([x], ids) == if x.id in ids then [] else [x]
  {
    assert [x][1..] == [];
  }

  lemma {:induction false} DropInLane(q: seq<Item>, ids: set<string>, lane: Lane)
    ensures InLane(DropItems(q, ids), lane) == DropItems(InLane(q, lane), ids)
  {
    if q != [] {
      DropInLane(q[1..], ids, lane);
      var own := if q[0].id in ids then [] else [q[0]];
      LaneConcat(own, DropItems(q[1..], ids), lane);
      OneInLane(q[0], lane);
      DropConcat(if LaneOf(q[0]) == lane then [q[0]] else [], InLane(q[1..], lane), ids);
      DropOne(q[0], ids);
    }
  }

  lemma {:induction false} DropReversed(q: seq<Item>, ids: set<string>)
    ensures Reversed(DropItems(q, ids)) == DropItems(Reversed(q), ids)
  {
    if q != [] {
      DropReversed(q[1..], ids);
      DropConcat(Reversed(q[1..]), [q[0]], ids);
      DropOne(q[0], ids);
      var rest := DropItems(q[1..], ids);
      assert q[0].id in ids ==> DropItems(q, ids) == rest && DropItems(Reversed(q[1..]), ids) + [] == DropItems(Reversed(q[1..]), ids);
      assert q[0].id !in ids ==> ([q[0]] + rest)[1..] == rest;
    }
  }

  lemma {:induction false} DropKeepsLater(sorted: seq<Item>, ids: set<string>, p: int)
    requires Sorted(sorted) && (sorted == [] || sorted[0].priority > p)
    ensures DropItems(sorted, ids) == [] || DropItems(sorted, ids)[0].priority > p
  {
    if sorted != [] { DropKeepsLater(sorted[1..], ids, p); }
  }

  lemma {:induction false} DropInserted(sorted: seq<Item>, x: Item, ids: set<string>)
    requires Sorted(sorted)
    ensures DropItems(Insert(sorted, x), ids) == if x.id in ids then DropItems(sorted, ids) else Insert(DropItems(sorted, ids), x)
    decreases |sorted|
  {
    if sorted == [] || sorted[0].priority > x.priority {
      DropConcat([x], sorted, ids);
      DropOne(x, ids);
      DropKeepsLater(sorted, ids, x.priority);
    } else {
      DropInserted(sorted[1..], x, ids);
      DropConcat([sorted[0]], Insert(sorted[1..], x), ids);
      DropOne(sorted[0], ids);
      var rest := DropItems(sorted[1..], ids);
      assert sorted[0].id !in ids ==> ([sorted[0]] + rest)[1..] == rest;
      assert sorted[0].id in ids ==> DropItems(sorted, ids) == rest;
    }
  }

  lemma {:induction false} DropSorted(q: seq<Item>, ids: set<string>)
    ensures StableSort(DropItems(q, ids)) == DropItems(StableSort(q), ids)
    decreases |q|
  {
    if q != [] {
      var init := q[..|q| - 1];
      DropSorted(init, ids);
      StableSortIsStable(init, 0);
      assert q == init + [q[|q| - 1]];
      DropSortedStep(init, q[|q| - 1], ids);
    }
  }

  lemma DropSortedStep(init: seq<Item>, x: Item, ids: set<string>)
    requires Sorted(StableSort(init)) && StableSort(DropItems(init, ids)) == DropItems(StableSort(init), ids)
    ensures StableSort(DropItems(init + [x], ids)) == DropItems(StableSort(init + [x]), ids)
  {
    hide DropItems, Insert, Sorted, StableSort;
    SortAppend(init, x);
    DropInserted(StableSort(init), x, ids);
    DropConcat(init, [x], ids);
    DropOne(x, ids);
    SortAppend(DropItems(init, ids), x);
    assert DropItems(init, ids) + [] == DropItems(init, ids);
  }

  lemma SortAppend(q: seq<Item>, x: Item)
    ensures StableSort(q + [x]) == Insert(StableSort(q), x)
  {
    assert (q + [x])[..|q|] == q;
  }

  /** Removing items takes exactly them out of the order; the rest keeps its order. */
  lemma RemovalKeepsOrder(q: seq<Item>, ids: set<string>)
    ensures DispatchOrder(DropItems(q, ids)) == DropItems(DispatchOrder(q), ids)
  {
    hide DropItems, InLane, StableSort, Reversed;
    DropInLane(q, ids, Priority);
    DropInLane(q, ids, Lifo);
    DropInLane(q, ids, Fifo);
    DropSorted(InLane(q, Priority), ids);
    DropReversed(InLane(q, Lifo), ids);
    DropConcat(StableSort(InLane(q, Priority)) + Reversed(InLane(q, Lifo)), InLane(q, Fifo), ids);
    DropConcat(StableSort(InLane(q, Priority)), Reversed(InLane(q, Lifo)), ids);
  }

  /** Where an appended item goes: into its place among the prioritized ones, ahead of all LIFO items, or to the end. */
  lemma AppendedPlace(q: seq<Item>, x: Item)
    ensures var sorted, newest, oldest := StableSort(InLane(q, Priority)), Reversed(InLane(q, Lifo)), InLane(q, Fifo);
      DispatchOrder(q + [x]) ==
      match LaneOf(x)
      case Priority => Insert(sorted, x) + newest + oldest
      case Lifo => sorted + [x] + newest + oldest
      case Fifo => sorted + newest + oldest + [x]
  {
    hide InLane, StableSort, Reversed, Insert;
    LaneConcat(q, [x], Priority);
    LaneConcat(q, [x], Lifo);
    LaneConcat(q, [x], Fifo);
    OneInLane(x, Priority);
    OneInLane(x, Lifo);
    OneInLane(x, Fifo);
    assert forall lane :: InLane(q, lane) + [] == InLane(q, lane);
    SortAppend(InLane(q, Priority), x);
    ReversedLast(InLane(q, Lifo), x);
  }
}
