/** The in-memory worker: how many jobs it may start, by concurrency, rate window and batch budget. */
module TestWorkers {
  import opened Wrappers
  import opened Sequences
  import opened Dispatch
  import opened TestQueues

  datatype Limiter = Limiter(max: int, duration: int)

  // ---- The rate window ----

  /** A history of granted slots with the start of the window each was granted in: windows are `duration` apart
      and grant at most `max` slots.
  */
  ghost predicate WindowHistory(granted: seq<int>, windows: seq<int>, max: nat, duration: int) {
    && |granted| == |windows|
    && (forall i, j :: 0 <= i <= j < |granted| ==> granted[i] <= granted[j])
    && (forall i, j :: 0 <= i <= j < |windows| ==> windows[i] == windows[j] || windows[i] + duration <= windows[j])
    && (forall i :: 0 <= i < |granted| ==> windows[i] <= granted[i] < windows[i] + duration || windows[i] == granted[i])
    && (forall i :: 0 <= i && i + max < |windows| ==> windows[i] != windows[i + max])
    && (forall i :: 0 < i < |windows| ==> windows[i] == windows[i - 1] || windows[i] == granted[i])
  }

  ghost function In(granted: seq<int>, from: int, to: int): set<nat> {
    set i | 0 <= i < |granted| && from <= granted[i] < to
  }

  lemma {:induction false} RangeSize(s: set<nat>, lo: nat, n: nat)
    requires forall i :: i in s ==> lo <= i < lo + n
    ensures |s| <= n
    decreases n
  {
    if n == 0 {
      assert s == {};
    } else {
      RangeSize(s - {lo + n - 1}, lo, n - 1);
      assert s <= (s - {lo + n - 1}) + {lo + n - 1};
    }
  }

  /** If slots `n` apart are `duration` apart in time, no interval of that length holds more than `n`. */
  lemma SparseSlots(granted: seq<int>, from: int, duration: int, n: nat)
    requires forall i, j :: 0 <= i <= j < |granted| ==> granted[i] <= granted[j]
    requires forall i :: 0 <= i && i + n < |granted| ==> granted[i + n] >= granted[i] + duration
    ensures |In(granted, from, from + duration)| <= n
  {
    var s := In(granted, from, from + duration);
    if exists i :: i in s {
      var lo := Least(s);
      assert lo + n < |granted| ==> granted[lo + n] >= from + duration;
      RangeSize(s, lo, n);
    } else {
      assert s == {};
    }
  }

  lemma {:induction false} Least(s: set<nat>) returns (lo: nat)
    requires exists i :: i in s
    ensures lo in s && forall i :: i in s ==> lo <= i
    decreases |s|
  {
    var x :| x in s;
    var rest := s - {x};
    assert s == rest + {x};
    if exists i :: i in rest {
      var y := Least(rest);
      lo := if y < x then y else x;
    } else {
      lo := x;
    }
  }

  /** At most 2 * max slots are granted in any half-open interval of one duration. */
  lemma AtMostTwiceMax(granted: seq<int>, windows: seq<int>, max: nat, duration: int, from: int)
    requires WindowHistory(granted, windows, max, duration)
    ensures |In(granted, from, from + duration)| <= 2 * max
  {
    forall i | 0 <= i && i + 2 * max < |granted| ensures granted[i + 2 * max] >= granted[i] + duration {
      assert windows[i] != windows[i + max] && windows[i + max] != windows[i + max + max];
    }
    SparseSlots(granted, from, duration, 2 * max);
  }

  /** One slot fewer unless the first window was opened before any job came. */
  lemma OneFewer(granted: seq<int>, windows: seq<int>, max: nat, duration: int, from: int)
    requires WindowHistory(granted, windows, max, duration) && max >= 1
    requires granted != [] ==> windows[0] == granted[0]
    ensures |In(granted, from, from + duration)| <= 2 * max - 1
  {
    forall i | 0 <= i && i + (2 * max - 1) < |granted| ensures granted[i + (2 * max - 1)] >= granted[i] + duration {
      if i == 0 || windows[i] == granted[i] {
        assert windows[i] != windows[i + max];
      } else {
        assert windows[i - 1] != windows[i - 1 + max];
        assert windows[i + max - 1] != windows[i + max - 1 + max];
      }
    }
    SparseSlots(granted, from, duration, 2 * max - 1);
  }

  /** The counters describe the last window of the history. */
  ghost predicate Counts(granted: seq<int>, windows: seq<int>, max: nat, duration: int, start: int, count: int, clock: int) {
    && WindowHistory(granted, windows, max, duration)
    && 0 <= count <= |granted| && count <= max && start <= clock
    && (granted == [] ==> start == 0)
    && (granted != [] ==> count >= 1 && windows[|windows| - 1] == start && granted[|granted| - 1] <= clock)
    && (forall i :: 0 <= i < |granted| - count ==> windows[i] != start)
  }

  lemma OpenWindow(granted: seq<int>, windows: seq<int>, max: nat, duration: int, start: int, count: int, now: int)
    requires Counts(granted, windows, max, duration, start, count, now) && max >= 1 && duration > 0 && now - start >= duration
    ensures Counts(granted + [now], windows + [now], max, duration, now, 1, now)
  {
    var n := |granted|;
    forall i | 0 <= i < n ensures windows[i] + duration <= now && granted[i] <= now {
      assert windows[i] <= windows[n - 1] == start && granted[i] <= granted[n - 1];
    }
    AppendSlot(granted, windows, max, duration, now, now);
  }

  lemma AppendSlot(granted: seq<int>, windows: seq<int>, max: nat, duration: int, w: int, now: int)
    requires WindowHistory(granted, windows, max, duration) && w <= now && (w == now || now < w + duration)
    requires forall i :: 0 <= i < |granted| ==> granted[i] <= now && (windows[i] == w || windows[i] + duration <= w)
    requires |windows| >= max ==> max > 0 && windows[|windows| - max] != w
    requires windows != [] ==> w == windows[|windows| - 1] || w == now
    ensures WindowHistory(granted + [now], windows + [w], max, duration)
  {
  }

  lemma SameWindow(granted: seq<int>, windows: seq<int>, max: nat, duration: int, start: int, count: int, now: int)
    requires Counts(granted, windows, max, duration, start, count, now) && duration > 0 && now - start < duration && count < max
    ensures Counts(granted + [now], windows + [start], max, duration, start, count + 1, now)
  {
    forall i | 0 <= i < |granted| ensures granted[i] <= now { assert granted[i] <= granted[|granted| - 1]; }
    AppendSlot(granted, windows, max, duration, start, now);
  }

  // ---- What a series of attempts is granted ----

  datatype Window = Window(start: int, count: int)

  /** The current window, and the granted slots with the windows they were granted in. */
  datatype Ledger = Ledger(window: Window, granted: seq<int>, windows: seq<int>)

  /** One attempt to take a slot: in a new window, refused, or in the current window. */
  function Attempt(l: Limiter, g: Ledger, now: int): Ledger {
    if now - g.window.start >= l.duration then Ledger(Window(now, 1), g.granted + [now], g.windows + [now])
    else if g.window.count >= l.max then g
    else Ledger(g.window.(count := g.window.count + 1), g.granted + [now], g.windows + [g.window.start])
  }

  function Attempts(l: Limiter, times: seq<int>): Ledger {
    if times == [] then Ledger(Window(0, 0), [], []) else Attempt(l, Attempts(l, times[..|times| - 1]), times[|times| - 1])
  }

  /** Readings of a clock that never runs backwards, none of them after `clock`. */
  ghost predicate Readings(times: seq<int>, clock: int) {
    && clock >= 0 && (forall i :: 0 <= i < |times| ==> 0 <= times[i] <= clock)
    && (forall i, j :: 0 <= i <= j < |times| ==> times[i] <= times[j])
  }

  ghost predicate LedgerCounts(l: Limiter, g: Ledger, clock: int) {
    l.max >= 1 && Counts(g.granted, g.windows, l.max, l.duration, g.window.start, g.window.count, clock)
  }

  lemma AttemptKeeps(l: Limiter, g: Ledger, clock: int, now: int)
    requires l.max >= 1 && l.duration > 0 && LedgerCounts(l, g, clock) && now >= clock
    ensures LedgerCounts(l, Attempt(l, g, now), now)
  {
    Later(l, g, clock, now);
    hide Counts;
    if now - g.window.start >= l.duration {
      OpenWindow(g.granted, g.windows, l.max, l.duration, g.window.start, g.window.count, now);
    } else if g.window.count < l.max {
      SameWindow(g.granted, g.windows, l.max, l.duration, g.window.start, g.window.count, now);
    }
  }

  lemma Later(l: Limiter, g: Ledger, clock: int, now: int)
    requires LedgerCounts(l, g, clock) && now >= clock
    ensures LedgerCounts(l, g, now)
  {}

  /** What is granted is a history of windows. */
  lemma {:induction false} AttemptsKeep(l: Limiter, times: seq<int>, clock: int)
    requires l.max >= 1 && l.duration > 0 && Readings(times, clock)
    ensures LedgerCounts(l, Attempts(l, times), clock)
    decreases |times|
  {
    hide Attempt, LedgerCounts;
    if times == [] {
      NothingGranted(l, clock);
    } else {
      var init, now := times[..|times| - 1], times[|times| - 1];
      AttemptsKeep(l, init, now);
      AttemptKeeps(l, Attempts(l, init), now, now);
      Later(l, Attempts(l, times), now, clock);
    }
  }

  lemma NothingGranted(l: Limiter, clock: int)
    requires l.max >= 1 && clock >= 0
    ensures LedgerCounts(l, Ledger(Window(0, 0), [], []), clock)
  {}

  /** The first attempt at or after one duration since the epoch opens the first window. */
  lemma {:induction false} FirstOpens(l: Limiter, times: seq<int>)
    requires times != [] && times[0] >= l.duration
    ensures var g := Attempts(l, times); |g.granted| == |g.windows| >= 1 && g.granted[0] == g.windows[0]
    decreases |times|
  {
    var init := times[..|times| - 1];
    if init != [] { FirstOpens(l, init); }
  }

  /** Attempts by a clock that is at least one duration past the epoch. */
  ghost predicate Clocked(l: Limiter, times: seq<int>) {
    times != [] && times[0] >= l.duration && Readings(times, times[|times| - 1])
  }

  /** How many slots fall into the interval of one duration that starts at `from`. */
  ghost function Burst(l: Limiter, times: seq<int>, from: int): nat {
    |In(Attempts(l, times).granted, from, from + l.duration)|
  }

  lemma BurstBound(l: Limiter, times: seq<int>, from: int)
    requires l.max >= 1 && l.duration > 0 && Clocked(l, times)
    ensures Burst(l, times, from) <= 2 * l.max - 1 && (l.duration == 1 ==> Burst(l, times, from) <= l.max)
  {
    hide Attempts, In;
    AttemptsKeep(l, times, times[|times| - 1]);
    FirstOpens(l, times);
    var g := Attempts(l, times);
    OneFewer(g.granted, g.windows, l.max, l.duration, from);
    if l.duration == 1 { OneInstant(g.granted, g.windows, l.max, from); }
  }

  /** Windows one unit long hold a single instant each. */
  lemma OneInstant(granted: seq<int>, windows: seq<int>, max: nat, from: int)
    requires WindowHistory(granted, windows, max, 1)
    ensures |In(granted, from, from + 1)| <= max
  {
    forall i | 0 <= i && i + max < |granted| ensures granted[i + max] >= granted[i] + 1 {
      assert windows[i] != windows[i + max];
    }
    SparseSlots(granted, from, 1, max);
  }

  function Repeated(x: int, n: nat): (r: seq<int>)
    ensures |r| == n && forall i :: 0 <= i < n ==> r[i] == x
  {
    if n == 0 then [] else Repeated(x, n - 1) + [x]
  }

  /** One slot opens a window, the rest of it goes at its last instant, and the next window at once. */
  function Straddling(l: Limiter): seq<int>
    requires l.max >= 2
  {
    [l.duration] + Repeated(2 * l.duration - 1, l.max - 1) + Repeated(2 * l.duration, l.max)
  }

  lemma OneMoreAttempt(l: Limiter, times: seq<int>, now: int)
    ensures Attempts(l, times + [now]) == Attempt(l, Attempts(l, times), now)
  {
    assert (times + [now])[..|times|] == times;
  }

  /** Every attempt was granted, and the current window looks like this. */
  ghost predicate AllGranted(l: Limiter, times: seq<int>, window: Window) {
    Attempts(l, times).granted == times && Attempts(l, times).window == window
  }

  lemma {:induction false} LateInWindow(l: Limiter, n: nat)
    requires l.duration >= 2 && n < l.max
    ensures AllGranted(l, [l.duration] + Repeated(2 * l.duration - 1, n), Window(l.duration, 1 + n))
  {
    hide Attempts;
    if n == 0 {
      OneMoreAttempt(l, [], l.duration);
      assert [] + [l.duration] == [l.duration] + Repeated(2 * l.duration - 1, n);
      NoAttempts(l);
    } else {
      var init := [l.duration] + Repeated(2 * l.duration - 1, n - 1);
      LateInWindow(l, n - 1);
      OneMoreAttempt(l, init, 2 * l.duration - 1);
      assert init + [2 * l.duration - 1] == [l.duration] + Repeated(2 * l.duration - 1, n);
    }
  }

  lemma NoAttempts(l: Limiter)
    ensures Attempts(l, []) == Ledger(Window(0, 0), [], [])
  {}

  lemma {:induction false} NextWindow(l: Limiter, first: seq<int>, n: nat)
    requires AllGranted(l, first, Window(l.duration, l.max)) && l.duration >= 1 && 1 <= n <= l.max
    ensures AllGranted(l, first + Repeated(2 * l.duration, n), Window(2 * l.duration, n))
    decreases n
  {
    hide Attempts;
    var init := first + Repeated(2 * l.duration, n - 1);
    assert init + [2 * l.duration] == first + Repeated(2 * l.duration, n);
    OneMoreAttempt(l, init, 2 * l.duration);
    if n == 1 {
      assert init == first;
    } else {
      NextWindow(l, first, n - 1);
    }
  }

  /** The times at which `Straddling` asks. */
  ghost predicate Straddles(times: seq<int>, max: nat, d: int) {
    |times| == 2 * max && forall i :: 0 <= i < |times| ==> times[i] == if i == 0 then d else if i < max then 2 * d - 1 else 2 * d
  }

  lemma StraddlingTimes(l: Limiter)
    requires l.max >= 2
    ensures Straddles(Straddling(l), l.max, l.duration)
  {}

  lemma StraddlingClocked(l: Limiter, times: seq<int>)
    requires l.max >= 2 && l.duration >= 2 && Straddles(times, l.max, l.duration)
    ensures Clocked(l, times)
  {}

  lemma StraddlingIn(times: seq<int>, max: nat, d: int)
    requires Straddles(times, max, d) && d >= 2
    ensures In(times, 2 * d - 1, 2 * d - 1 + d) == Interval(1, 2 * max)
  {
    forall i: nat ensures i in In(times, 2 * d - 1, 2 * d - 1 + d) <==> i in Interval(1, 2 * max) {
      assert Between(1, i, 2 * max) <==> 1 <= i < 2 * max;
    }
  }

  lemma StraddlingBurst(l: Limiter)
    requires l.max >= 2 && l.duration >= 2
    ensures Clocked(l, Straddling(l)) && Burst(l, Straddling(l), 2 * l.duration - 1) == 2 * l.max - 1
  {
    hide Attempts, Repeated, Interval, In, Straddles, Clocked;
    LateInWindow(l, l.max - 1);
    NextWindow(l, [l.duration] + Repeated(2 * l.duration - 1, l.max - 1), l.max);
    var times := Straddling(l);
    StraddlingTimes(l);
    StraddlingClocked(l, times);
    StraddlingIn(times, l.max, l.duration);
    IntervalSize(1, 2 * l.max);
  }

  ghost predicate CanBurst(l: Limiter, n: nat) {
    exists times, from :: Clocked(l, times) && Burst(l, times, from) >= n
  }

  /** Some interval of one duration can hold more than `max` slots exactly if `max` and `duration` are at least 2; it
      can then hold 2 * max - 1 of them, and never more.
  */
  lemma BurstsExactly(l: Limiter)
    requires l.max >= 1 && l.duration > 0
    ensures CanBurst(l, l.max + 1) <==> l.max >= 2 && l.duration >= 2
    ensures l.max >= 2 && l.duration >= 2 ==> CanBurst(l, 2 * l.max - 1)
    ensures !CanBurst(l, 2 * l.max)
  {
    hide Clocked, Burst;
    if l.max >= 2 && l.duration >= 2 { StraddlingBurst(l); }
    forall times, from | Clocked(l, times)
      ensures Burst(l, times, from) <= 2 * l.max - 1 && (l.duration == 1 ==> Burst(l, times, from) <= l.max)
    {
      BurstBound(l, times, from);
    }
  }

  class RateWindow {
    const limiter: Option<Limiter>
    var rateLimitUntil: int
    var rateWindowStart: int
    var rateWindowCount: int
    /** The clock's last reading, and the times of all attempts made while not paused. */
    ghost var clock: int
    ghost var attempts: seq<int>

    /** The counters are those of the attempts so far. */
    ghost predicate Valid()
      reads this
    {
      Limits() ==> Readings(attempts, clock) && Attempts(limiter.value, attempts).window == Window(rateWindowStart, rateWindowCount)
    }

    /** A limiter that limits at all; a window without length would always be over. */
    predicate Limits() {
      limiter.Some? && limiter.value.max >= 1 && limiter.value.duration > 0
    }

    /** The slots granted under the limiter. */
    ghost function Granted(): seq<int>
      requires Limits()
      reads this
    {
      Attempts(limiter.value, attempts).granted
    }

    constructor (limiter: Option<Limiter>)
      ensures Valid() && this.limiter == limiter && attempts == [] && clock == 0 && rateLimitUntil == 0
    {
      this.limiter := limiter;
      rateLimitUntil, rateWindowStart, rateWindowCount := 0, 0, 0;
      clock, attempts := 0, [];
    }

    /** Paused, or the window's slots are used up. */
    predicate Limited(now: int)
      reads this
    {
      || rateLimitUntil > now
      || (limiter.Some? && limiter.value.max > 0 && now - rateWindowStart < limiter.value.duration && rateWindowCount >= limiter.value.max)
    }

    /** Returns 0 and counts a slot, or how long to wait. */
    method AcquireRateSlot(now: int) returns (wait: int)
      requires Valid() && now >= clock
      modifies this
      ensures Valid() && clock == now && wait >= 0 && rateLimitUntil == old(rateLimitUntil)
      ensures wait > 0 <==> old(Limited(now))
      ensures rateLimitUntil > now ==> now + wait == rateLimitUntil
      ensures rateLimitUntil <= now && wait > 0 ==> !Limited(now + wait) && forall t :: now <= t < now + wait ==> Limited(t)
      ensures attempts == if rateLimitUntil > now then old(attempts) else old(attempts) + [now]
      ensures Limits() ==> Granted() == if wait == 0 then old(Granted()) + [now] else old(Granted())
      ensures rateLimitUntil <= now && wait > 0 ==>
                limiter.Some? && 0 < limiter.value.max <= old(rateWindowCount) && now + wait == old(rateWindowStart) + limiter.value.duration
      ensures wait > 0 || limiter.None? || limiter.value.max <= 0 ==>
                rateWindowStart == old(rateWindowStart) && rateWindowCount == old(rateWindowCount)
      ensures wait == 0 && limiter.Some? && limiter.value.max > 0 ==>
                if old(rateWindowStart) + limiter.value.duration <= now then rateWindowStart == now && rateWindowCount == 1
                else rateWindowStart == old(rateWindowStart) && rateWindowCount == old(rateWindowCount) + 1 <= limiter.value.max
      ensures wait > 0 ==> Limited(now)
    {
      hide Attempts;
      clock := now;
      if rateLimitUntil > now { return rateLimitUntil - now; }
      attempts := attempts + [now];
      if Limits() { OneMoreAttempt(limiter.value, old(attempts), now); }
      if limiter.None? || limiter.value.max <= 0 { return 0; }
      var Limiter(max, duration) := limiter.value;
      if now - rateWindowStart >= duration {
        rateWindowStart, rateWindowCount := now, 1;
        return 0;
      }
      if rateWindowCount >= max { return duration - (now - rateWindowStart); }
      rateWindowCount := rateWindowCount + 1;
      return 0;
    }

    /** A manual pause, or one after a RateLimitError. */
    method RateLimit(now: int, ms: int)
      requires Valid()
      modifies this`rateLimitUntil
      ensures Valid() && rateLimitUntil == now + ms
    {
      rateLimitUntil := now + ms;
    }
  }

  // ---- Single-job dispatch ----

  class TestWorker {
    const queue: TestQueue
    const window: RateWindow
    const concurrency: nat
    var activeCount: nat

    ghost predicate Valid()
      reads this, queue, queue.jobs.Values, window
    {
      queue.Valid() && window.Valid() && activeCount <= concurrency
    }

    constructor (queue: TestQueue, limiter: Option<Limiter>, concurrency: nat)
      requires queue.Valid()
      ensures Valid() && this.queue == queue && this.concurrency == concurrency && activeCount == 0
      ensures fresh(window) && window.limiter == limiter && window.attempts == []
    {
      this.queue, this.concurrency, activeCount := queue, concurrency, 0;
      window := new RateWindow(limiter);
    }

    /** Takes the next job if the limiter lets one through: a slot is consumed exactly when a job is taken. */
    method FindNextWaiting(now: int) returns (taken: Option<JobRecord>)
      requires queue.Valid() && window.Valid() && now >= window.clock
      modifies queue`waitingQueue, (set r | r in queue.waitingQueue)`state, window
      ensures queue.Valid() && window.Valid() && old(window.clock) <= window.clock <= now
      ensures window.Limits() ==> window.Granted() == if taken.Some? then old(window.Granted()) + [now] else old(window.Granted())
      ensures taken.None? ==> queue.waitingQueue == old(queue.waitingQueue)
      ensures taken.Some? ==> taken.value.state == Active && taken.value in old(queue.waitingQueue)
      ensures taken.Some? ==>
                DispatchOrder(old(ItemsOf(queue.waitingQueue))) == [taken.value.ToItem()] + DispatchOrder(ItemsOf(queue.waitingQueue))
      ensures taken.None? ==> queue.waitingQueue == [] || window.Limited(now)
      ensures forall r :: r in queue.waitingQueue ==> r in old(queue.waitingQueue)
    {
      hide DispatchOrder, ItemsOf;
      var has := queue.HasWaiting();
      if !has { return None; }
      var wait := window.AcquireRateSlot(now);
      if wait > 0 { return None; }
      taken := queue.DispatchNext();
    }

    /** Starts jobs in dispatch order until the worker is full, nothing waits, or the limiter says stop. */
    method ProcessAvailable(now: nat -> int) returns (started: seq<Item>)
      requires Valid() && window.clock <= now(0) && forall i, j :: 0 <= i <= j ==> now(i) <= now(j)
      modifies this`activeCount, queue`waitingQueue, (set r | r in queue.waitingQueue)`state, window
      ensures Valid() && activeCount == old(activeCount) + |started|
      ensures DispatchOrder(old(ItemsOf(queue.waitingQueue))) == started + DispatchOrder(ItemsOf(queue.waitingQueue))
      ensures window.Limits() ==> |window.Granted()| == |old(window.Granted())| + |started|
      ensures activeCount == concurrency || queue.waitingQueue == [] || window.Limited(now(|started|))
    {
      hide DispatchOrder, ItemsOf;
      started := [];
      ghost var all := queue.waitingQueue;
      while activeCount < concurrency
        invariant Valid() && activeCount == old(activeCount) + |started| && window.clock <= now(|started|)
        invariant forall r :: r in queue.waitingQueue ==> r in all
        invariant DispatchOrder(old(ItemsOf(queue.waitingQueue))) == started + DispatchOrder(ItemsOf(queue.waitingQueue))
        invariant window.Limits() ==> |window.Granted()| == |old(window.Granted())| + |started|
        decreases concurrency - activeCount
      {
        var taken := FindNextWaiting(now(|started|));
        if taken.None? { return; }
        activeCount := activeCount + 1;
        started := started + [taken.value.ToItem()];
      }
    }
  }
}
