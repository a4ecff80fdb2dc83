/** When a scheduler entry runs next, and what a tick of the due entries does. */
module SchedulerTimes {
  import opened Wrappers
  import opened Sequences
  import opened Grid

  datatype Mode = Cron(pattern: string) | Every(ms: int) | AfterComplete(ms: int)

  datatype Schedule = Schedule(mode: Mode, tz: Option<string>, startDate: Option<int>, endDate: Option<int>, limit: Option<int>)

  /** What upsertJobScheduler checks before it stores a schedule. */
  predicate ValidSchedule(s: Schedule) {
    && (s.mode.Every? ==> s.mode.ms > 0) && (s.mode.AfterComplete? ==> s.mode.ms > 0)
    && (s.startDate.Some? && s.endDate.Some? ==> s.startDate.value <= s.endDate.value)
    && (s.limit.Some? ==> s.limit.value > 0)
  }

  /** A next run, no run within the bounds, or a pattern without occurrences (an exception in the source). */
  datatype Next = At(ms: int) | Never | BadPattern

  /** The cron engine for one pattern and zone: the first occurrence strictly after an instant, if any. */
  type CronNext = int -> Option<int>

  ghost predicate Later(cron: CronNext) {
    forall t :: cron(t).Some? ==> cron(t).value > t
  }

  function WithinEnd(s: Schedule, t: int): Next {
    if s.endDate.Some? && t > s.endDate.value then Never else At(t)
  }

  function CeilDiv(a: int, b: int): int
    requires b > 0
  {
    (a + b - 1) / b
  }

  /** First run of a new or changed schedule. */
  function InitialNextRun(s: Schedule, now: int, cron: CronNext): Next
    requires ValidSchedule(s)
  {
    match s.mode
    case AfterComplete(_) =>
      WithinEnd(s, if s.startDate.Some? && s.startDate.value > now then s.startDate.value else now)
    case Cron(_) =>
      var base := if s.startDate.Some? && s.startDate.value > now then s.startDate.value else now;
      (match cron(base - 1)
       case None => BadPattern
       case Some(t) => WithinEnd(s, t))
    case Every(ms) =>
      if s.startDate.None? then WithinEnd(s, now + ms)
      else if s.startDate.value > now then WithinEnd(s, s.startDate.value)
      else WithinEnd(s, s.startDate.value + CeilDiv(now - s.startDate.value, ms) * ms)
  }

  /** The run after one at `afterMs`; `nextRun` is the slot that just came due. */
  function FollowingNextRun(s: Schedule, nextRun: int, afterMs: int, cron: CronNext): Next
    requires ValidSchedule(s)
  {
    match s.mode
    case AfterComplete(ms) => WithinEnd(s, afterMs + ms)
    case Cron(_) =>
      (match cron(afterMs)
       case None => BadPattern
       case Some(t) => WithinEnd(s, t))
    case Every(ms) =>
      if nextRun <= afterMs then WithinEnd(s, nextRun + ((afterMs - nextRun) / ms + 1) * ms) else WithinEnd(s, nextRun)
  }

  // ---- Least grid points ----

  /** With a start date, an interval schedule first runs at the least startDate + k * every not before now. */
  lemma InitialIsLeastGridPoint(s: Schedule, now: int, cron: CronNext, t: int)
    requires ValidSchedule(s) && s.mode.Every? && s.startDate.Some?
    requires InitialNextRun(s, now, cron) == At(t)
    ensures OnGrid(s.startDate.value, s.mode.ms, t) && t >= now
    ensures forall g :: OnGrid(s.startDate.value, s.mode.ms, g) && g >= now ==> t <= g
  {
    var origin, ms := s.startDate.value, s.mode.ms;
    var k := if origin > now then 0 else CeilDiv(now - origin, ms);
    if origin <= now { CeilBounds(now - origin, ms); }
    assert t == origin + k * ms;
    GridPoint(origin, ms, k);
    forall g | OnGrid(origin, ms, g) && g >= now ensures t <= g {
      if origin <= now { GridGap(origin, ms, t, g, now); }
    }
  }

  lemma CeilBounds(a: int, ms: int)
    requires a >= 0 && ms > 0
    ensures CeilDiv(a, ms) >= 0 && a <= CeilDiv(a, ms) * ms < a + ms
  {
    var q := (a + ms - 1) / ms;
    assert a + ms - 1 == q * ms + (a + ms - 1) % ms;
    Multiples(q, ms);
  }

  /** The run after a due slot is the least point of the slot's grid after the tick: missed slots coalesce. */
  lemma FollowingIsLeastGridPoint(s: Schedule, nextRun: int, afterMs: int, cron: CronNext, t: int)
    requires ValidSchedule(s) && s.mode.Every? && nextRun <= afterMs
    requires FollowingNextRun(s, nextRun, afterMs, cron) == At(t)
    ensures OnGrid(nextRun, s.mode.ms, t) && t > afterMs && t >= nextRun + s.mode.ms
    ensures forall g :: OnGrid(nextRun, s.mode.ms, g) && g > afterMs ==> t <= g
  {
    var ms := s.mode.ms;
    var q := (afterMs - nextRun) / ms;
    assert afterMs - nextRun == q * ms + (afterMs - nextRun) % ms;
    assert (q + 1) * ms == q * ms + ms;
    Multiples(q, ms);
    assert q * ms >= 0;
    GridPoint(nextRun, ms, q + 1);
    forall g | OnGrid(nextRun, ms, g) && g > afterMs ensures t <= g {
      GridGap(nextRun, ms, t, g, afterMs + 1);
    }
  }

  // ---- The runs, told without the end date ----

  /** `t` is the least of the points origin, origin + ms, ... that is not before `floor`. */
  ghost predicate LeastPoint(origin: int, ms: int, floor: int, t: int)
    requires ms > 0
  {
    OnGrid(origin, ms, t) && t >= floor && forall g :: OnGrid(origin, ms, g) && g >= floor ==> t <= g
  }

  /** The later of now and the start date. */
  ghost predicate NotBefore(s: Schedule, now: int, t: int) {
    && t >= now && (s.startDate.Some? ==> t >= s.startDate.value)
    && (t == now || s.startDate == Some(t))
  }

  /** The first run a schedule asks for: at once or at the start date, at the first occurrence from there on, one
      interval from now, or on the grid of the start date.
  */
  ghost predicate FirstRun(s: Schedule, now: int, cron: CronNext, t: int)
    requires ValidSchedule(s)
  {
    match s.mode
    case AfterComplete(_) => NotBefore(s, now, t)
    case Cron(_) => exists base :: NotBefore(s, now, base) && cron(base - 1) == Some(t)
    case Every(ms) => if s.startDate.None? then t == now + ms else LeastPoint(s.startDate.value, ms, now, t)
  }

  /** The run it asks for after a tick: an interval after it, the next occurrence, or the next point of the slot's grid. */
  ghost predicate RunAfter(s: Schedule, slot: int, afterMs: int, cron: CronNext, t: int)
    requires ValidSchedule(s)
  {
    match s.mode
    case AfterComplete(ms) => t == afterMs + ms
    case Cron(_) => cron(afterMs) == Some(t)
    case Every(ms) => LeastPoint(slot, ms, afterMs + 1, t)
  }

  /** The run is not after the end date. */
  ghost predicate InTime(s: Schedule, t: int) {
    s.endDate.Some? ==> t <= s.endDate.value
  }

  /** The answer is the run asked for if it is in time, Never if it is too late, and BadPattern if there is none. */
  ghost predicate Answers(next: Next, s: Schedule, asked: int -> bool) {
    && (forall t :: next == At(t) <==> asked(t) && InTime(s, t))
    && (next.Never? <==> exists t :: asked(t) && !InTime(s, t))
    && (next.BadPattern? <==> forall t :: !asked(t))
  }

  lemma LeastIsUnique(origin: int, ms: int, floor: int, t: int, u: int)
    requires ms > 0 && LeastPoint(origin, ms, floor, t) && LeastPoint(origin, ms, floor, u)
    ensures t == u
  {}

  lemma AnswersOne(next: Next, s: Schedule, asked: int -> bool, t: int)
    requires asked(t) && (forall u :: asked(u) ==> u == t) && next == WithinEnd(s, t)
    ensures Answers(next, s, asked)
  {}

  lemma EveryFirst(s: Schedule, now: int, cron: CronNext) returns (t: int)
    requires ValidSchedule(s) && s.mode.Every?
    ensures FirstRun(s, now, cron, t) && InitialNextRun(s, now, cron) == WithinEnd(s, t)
    ensures forall u :: FirstRun(s, now, cron, u) ==> u == t
  {
    var ms := s.mode.ms;
    if s.startDate.None? {
      t := now + ms;
    } else {
      var origin := s.startDate.value;
      t := if origin > now then origin else origin + CeilDiv(now - origin, ms) * ms;
      InitialIsLeastGridPoint(s.(endDate := None), now, cron, t);
      forall u | LeastPoint(origin, ms, now, u) ensures u == t { LeastIsUnique(origin, ms, now, t, u); }
    }
  }

  lemma OnlyBase(s: Schedule, now: int) returns (base: int)
    ensures base == if s.startDate.Some? && s.startDate.value > now then s.startDate.value else now
    ensures NotBefore(s, now, base) && forall b :: NotBefore(s, now, b) ==> b == base
  {
    base := if s.startDate.Some? && s.startDate.value > now then s.startDate.value else now;
  }

  /** The first run computed is the one the schedule asks for. */
  lemma FirstRunExactly(s: Schedule, now: int, cron: CronNext)
    requires ValidSchedule(s)
    ensures Answers(InitialNextRun(s, now, cron), s, t => FirstRun(s, now, cron, t))
  {
    var asked := t => FirstRun(s, now, cron, t);
    var base := OnlyBase(s, now);
    match s.mode
    case AfterComplete(_) => AnswersOne(InitialNextRun(s, now, cron), s, asked, base);
    case Every(_) =>
      var t := EveryFirst(s, now, cron);
      AnswersOne(InitialNextRun(s, now, cron), s, asked, t);
    case Cron(_) =>
      if cron(base - 1).Some? { AnswersOne(InitialNextRun(s, now, cron), s, asked, cron(base - 1).value); }
  }

  lemma EveryAfter(s: Schedule, slot: int, afterMs: int, cron: CronNext) returns (t: int)
    requires ValidSchedule(s) && s.mode.Every?
    ensures RunAfter(s, slot, afterMs, cron, t) && FollowingNextRun(s, slot, afterMs, cron) == WithinEnd(s, t)
    ensures forall u :: RunAfter(s, slot, afterMs, cron, u) ==> u == t
  {
    var ms := s.mode.ms;
    if slot <= afterMs {
      t := slot + ((afterMs - slot) / ms + 1) * ms;
      FollowingIsLeastGridPoint(s.(endDate := None), slot, afterMs, cron, t);
    } else {
      t := slot;
      assert OnGrid(slot, ms, slot);
    }
    var floor := afterMs + 1;
    forall u | LeastPoint(slot, ms, floor, u) ensures u == t { LeastIsUnique(slot, ms, floor, t, u); }
  }

  /** The run computed after a tick is the one the schedule asks for. */
  lemma RunAfterExactly(s: Schedule, slot: int, afterMs: int, cron: CronNext)
    requires ValidSchedule(s)
    ensures Answers(FollowingNextRun(s, slot, afterMs, cron), s, t => RunAfter(s, slot, afterMs, cron, t))
  {
    var asked := t => RunAfter(s, slot, afterMs, cron, t);
    match s.mode
    case AfterComplete(ms) => AnswersOne(FollowingNextRun(s, slot, afterMs, cron), s, asked, afterMs + ms);
    case Every(_) =>
      var t := EveryAfter(s, slot, afterMs, cron);
      AnswersOne(FollowingNextRun(s, slot, afterMs, cron), s, asked, t);
    case Cron(_) =>
      if cron(afterMs).Some? { AnswersOne(FollowingNextRun(s, slot, afterMs, cron), s, asked, cron(afterMs).value); }
  }

  /** First run after a switch to repeat-after-complete: held back to the old mode's next run. */
  function HoldModeSwitch(existing: Entry, nextRun: int, endDate: Option<int>): Next {
    if existing.schedule.mode.AfterComplete? || existing.nextRun <= 0 then At(nextRun)
    else
      var held := if nextRun >= existing.nextRun then nextRun else existing.nextRun;
      if endDate.Some? && held > endDate.value then Never else At(held)
  }

  /** All computed runs lie after the epoch, so 0 is free to mean that a job is in flight. */
  lemma NextRunsArePositive(s: Schedule, nextRun: int, now: int, cron: CronNext)
    requires ValidSchedule(s) && now > 0 && Later(cron)
    ensures InitialNextRun(s, now, cron).At? ==> InitialNextRun(s, now, cron).ms > 0
    ensures FollowingNextRun(s, nextRun, now, cron).At? ==> FollowingNextRun(s, nextRun, now, cron).ms > 0
  {
    if s.mode.Every? {
      if s.startDate.Some? && s.startDate.value <= now { CeilBounds(now - s.startDate.value, s.mode.ms); }
      if nextRun <= now { FloorBounds(now - nextRun, s.mode.ms); }
    }
  }

  lemma FloorBounds(a: int, ms: int)
    requires a >= 0 && ms > 0
    ensures a < (a / ms + 1) * ms <= a + ms
  {
    assert a == (a / ms) * ms + a % ms;
    assert (a / ms + 1) * ms == (a / ms) * ms + ms;
  }

  // ---- A tick over one entry ----

  datatype Entry = Entry(schedule: Schedule, nextRun: int, iterationCount: int, lastRun: Option<int>)

  /** Nothing due, the entry is dropped without a job, or a job is created and the entry lives on or ends.
      A pattern without further occurrences throws after its job was created.
  */
  datatype Tick = Idle | Dropped | Fired(next: Option<Entry>) | Threw(left: Entry)

  function LimitReached(s: Schedule, count: int): bool {
    s.limit.Some? && count >= s.limit.value
  }

  /** `templateFits` tells whether the stored job template serializes within the size limit. */
  function TickEntry(e: Entry, now: int, templateFits: bool, cron: CronNext): (tick: Tick)
    requires ValidSchedule(e.schedule)
    ensures tick.Fired? && tick.next.Some? ==> tick.next.value.schedule == e.schedule
    ensures tick.Threw? ==> tick.left.schedule == e.schedule
  {
    var s := e.schedule;
    if s.mode.AfterComplete? && e.nextRun == 0 then Idle
    else if e.nextRun > now then Idle
    else if LimitReached(s, e.iterationCount) || (s.endDate.Some? && e.nextRun > s.endDate.value) then Dropped
    else if !templateFits then Dropped
    else
      var fired := e.(iterationCount := e.iterationCount + 1, lastRun := Some(now));
      if LimitReached(s, fired.iterationCount) then Fired(None)
      else if s.mode.AfterComplete? then Fired(Some(fired.(nextRun := 0)))
      else
        match FollowingNextRun(s, e.nextRun, now, cron)
        case Never => Fired(None)
        case BadPattern => Threw(fired)
        case At(t) => Fired(Some(fired.(nextRun := t)))
  }

  /** The entry's slot has come, and it is not a chain waiting for its job. */
  ghost predicate IsDue(e: Entry, now: int) {
    e.nextRun <= now && (e.schedule.mode.AfterComplete? ==> e.nextRun != 0)
  }

  /** The slot may fire: runs are left, the slot is in time and the template is usable. */
  ghost predicate MayFire(e: Entry, templateFits: bool) {
    (e.schedule.limit.Some? ==> e.iterationCount < e.schedule.limit.value) && InTime(e.schedule, e.nextRun) && templateFits
  }

  /** The run after this one would be one too many. */
  ghost predicate IsLastRun(e: Entry) {
    e.schedule.limit.Some? && e.iterationCount + 1 >= e.schedule.limit.value
  }

  /** What a tick does, from the slot, the limit, the end date and the runs the schedule asks for. */
  ghost predicate TickIs(tick: Tick, e: Entry, now: int, templateFits: bool, cron: CronNext)
    requires ValidSchedule(e.schedule)
  {
    var s := e.schedule;
    var counted := e.(iterationCount := e.iterationCount + 1, lastRun := Some(now));
    if !IsDue(e, now) then tick == Idle
    else if !MayFire(e, templateFits) then tick == Dropped
    else if IsLastRun(e) then tick == Fired(None)
    else if s.mode.AfterComplete? then tick == Fired(Some(counted.(nextRun := 0)))
    else
      && (forall t :: tick == Fired(Some(counted.(nextRun := t))) <==> RunAfter(s, e.nextRun, now, cron, t) && InTime(s, t))
      && (tick == Fired(None) <==> exists t :: RunAfter(s, e.nextRun, now, cron, t) && !InTime(s, t))
      && (tick == Threw(counted) <==> forall t :: !RunAfter(s, e.nextRun, now, cron, t))
  }

  lemma TickExactly(e: Entry, now: int, templateFits: bool, cron: CronNext)
    requires ValidSchedule(e.schedule)
    ensures TickIs(TickEntry(e, now, templateFits, cron), e, now, templateFits, cron)
  {
    hide RunAfter, FollowingNextRun;
    var s := e.schedule;
    RunAfterExactly(s, e.nextRun, now, cron);
    var asked := t => RunAfter(s, e.nextRun, now, cron, t);
    assert forall t :: asked(t) <==> RunAfter(s, e.nextRun, now, cron, t);
    var next := FollowingNextRun(s, e.nextRun, now, cron);
    match next {
      case At(t) => assert asked(t) && InTime(s, t);
      case Never => var t :| asked(t) && !InTime(s, t);
      case BadPattern =>
    }
  }

  // ---- Runs of an interval schedule ----

  /** A created job: the slot it stands for and the tick that created it. */
  datatype Fire = Fire(slot: int, at: int)

  /** The jobs one entry creates over a series of ticks. */
  function Fires(e: Entry, nows: seq<int>, templateFits: bool, cron: CronNext): seq<Fire>
    requires ValidSchedule(e.schedule)
    decreases |nows|
  {
    if nows == [] then []
    else
      match TickEntry(e, nows[0], templateFits, cron)
      case Idle => Fires(e, nows[1..], templateFits, cron)
      case Dropped => []
      case Threw(_) => [Fire(e.nextRun, nows[0])]
      case Fired(None) => [Fire(e.nextRun, nows[0])]
      case Fired(Some(next)) => [Fire(e.nextRun, nows[0])] + Fires(next, nows[1..], templateFits, cron)
  }

  /** The fires stand for grid points: each is due, and the next one is the least point after the tick of this one. */
  ghost predicate OnSchedule(origin: int, ms: int, fires: seq<Fire>)
    requires ms > 0
  {
    && (forall i :: 0 <= i < |fires| ==> OnGrid(origin, ms, fires[i].slot) && fires[i].slot <= fires[i].at)
    && (forall i :: 0 <= i < |fires| - 1 ==> NextSlot(origin, ms, fires[i].at, fires[i + 1].slot))
  }

  /** `t` is the least grid point after `floor`. */
  ghost predicate NextSlot(origin: int, ms: int, floor: int, t: int)
    requires ms > 0
  {
    t > floor && OnGrid(origin, ms, t) && forall g :: OnGrid(origin, ms, g) && g > floor ==> t <= g
  }

  lemma {:induction false} FirstSlot(e: Entry, nows: seq<int>, templateFits: bool, cron: CronNext)
    requires ValidSchedule(e.schedule) && Fires(e, nows, templateFits, cron) != []
    ensures Fires(e, nows, templateFits, cron)[0].slot == e.nextRun
    decreases |nows|
  {
    if TickEntry(e, nows[0], templateFits, cron).Idle? {
      FirstSlot(e, nows[1..], templateFits, cron);
    }
  }

  lemma NextOnGrid(origin: int, ms: int, slot: int, floor: int, t: int)
    requires ms > 0 && OnGrid(origin, ms, slot) && slot <= floor && OnGrid(slot, ms, t) && t > floor
    requires forall g :: OnGrid(slot, ms, g) && g > floor ==> t <= g
    ensures NextSlot(origin, ms, floor, t)
  {
    GridShift(origin, ms, slot, t);
    forall g | OnGrid(origin, ms, g) && g > floor ensures t <= g {
      var i := GridIndex(origin, ms, slot);
      var j := GridIndex(origin, ms, g);
      Multiples(j - i, ms);
      assert g - slot == (j - i) * ms by { assert (j - i) * ms == j * ms - i * ms; }
      MultipleMod(j - i, ms);
      assert OnGrid(slot, ms, g);
    }
  }

  /** Over any series of ticks an interval schedule fires only its own grid points, within limit and end date;
      slots missed between two ticks coalesce, and the next slot is never skipped.
  */
  lemma {:induction false} IntervalRun(e: Entry, nows: seq<int>, templateFits: bool, cron: CronNext, origin: int)
    requires ValidSchedule(e.schedule) && e.schedule.mode.Every? && OnGrid(origin, e.schedule.mode.ms, e.nextRun)
    ensures OnSchedule(origin, e.schedule.mode.ms, Fires(e, nows, templateFits, cron))
    ensures e.schedule.limit.Some? && e.iterationCount <= e.schedule.limit.value ==>
              |Fires(e, nows, templateFits, cron)| <= e.schedule.limit.value - e.iterationCount
    ensures e.schedule.endDate.Some? ==> forall f :: f in Fires(e, nows, templateFits, cron) ==> f.slot <= e.schedule.endDate.value
    decreases |nows|
  {
    if nows != [] {
      match TickEntry(e, nows[0], templateFits, cron) {
        case Idle => IntervalRun(e, nows[1..], templateFits, cron, origin);
        case Dropped =>
        case Threw(_) =>
        case Fired(None) =>
        case Fired(Some(next)) =>
          var ms := e.schedule.mode.ms;
          FollowingIsLeastGridPoint(e.schedule, e.nextRun, nows[0], cron, next.nextRun);
          NextOnGrid(origin, ms, e.nextRun, nows[0], next.nextRun);
          IntervalRun(next, nows[1..], templateFits, cron, origin);
          var rest := Fires(next, nows[1..], templateFits, cron);
          if rest != [] { FirstSlot(next, nows[1..], templateFits, cron); }
          AppendFire(origin, ms, Fire(e.nextRun, nows[0]), rest);
      }
    }
  }

  lemma AppendFire(origin: int, ms: int, f: Fire, rest: seq<Fire>)
    requires ms > 0 && OnGrid(origin, ms, f.slot) && f.slot <= f.at && OnSchedule(origin, ms, rest)
    requires rest != [] ==> NextSlot(origin, ms, f.at, rest[0].slot)
    ensures OnSchedule(origin, ms, [f] + rest)
  {
    var fires := [f] + rest;
    forall i | 0 <= i < |fires| - 1 ensures NextSlot(origin, ms, fires[i].at, fires[i + 1].slot) {
      if i > 0 { assert fires[i] == rest[i - 1] && fires[i + 1] == rest[i - 1 + 1]; }
    }
  }

  /** Slots strictly increase, so no slot fires twice. */
  lemma {:induction false} SlotsIncrease(origin: int, ms: int, fires: seq<Fire>, i: nat, j: nat)
    requires ms > 0 && OnSchedule(origin, ms, fires) && i < j < |fires|
    ensures fires[i].slot < fires[j].slot && fires[i].at < fires[j].slot
    decreases j
  {
    assert NextSlot(origin, ms, fires[j - 1].at, fires[j - 1 + 1].slot);
    if i < j - 1 { SlotsIncrease(origin, ms, fires, i, j - 1); }
  }

  /** An entry stored by an upsert at `now` runs on the grid of its start date. */
  lemma UpsertedRun(s: Schedule, now: int, nows: seq<int>, templateFits: bool, cron: CronNext, t: int)
    requires ValidSchedule(s) && s.mode.Every? && s.startDate.Some? && InitialNextRun(s, now, cron) == At(t)
    ensures var fires := Fires(Entry(s, t, 0, None), nows, templateFits, cron);
      && OnSchedule(s.startDate.value, s.mode.ms, fires)
      && (fires != [] ==> fires[0].slot >= now && forall g :: OnGrid(s.startDate.value, s.mode.ms, g) && g >= now ==> fires[0].slot <= g)
      && (s.limit.Some? ==> |fires| <= s.limit.value)
      && (s.endDate.Some? ==> forall f :: f in fires ==> f.slot <= s.endDate.value)
  {
    InitialIsLeastGridPoint(s, now, cron, t);
    var e := Entry(s, t, 0, None);
    IntervalRun(e, nows, templateFits, cron, s.startDate.value);
    if Fires(e, nows, templateFits, cron) != [] { FirstSlot(e, nows, templateFits, cron); }
  }

  // ---- The in-memory scheduler table ----

  /** The entries and the jobs created for them (scheduler name, time) after ticking the named entries in order. */
  function TickAll(entries: map<string, Entry>, jobs: seq<(string, int)>, names: seq<string>, now: int, fits: string -> bool, cron: Schedule -> CronNext):
    (r: (map<string, Entry>, seq<(string, int)>, bool))
    requires forall n :: n in entries ==> ValidSchedule(entries[n].schedule)
    ensures forall n :: n in r.0 ==> n in entries && r.0[n].schedule == entries[n].schedule
    decreases |names|
  {
    if names == [] then (entries, jobs, false)
    else
      var name, rest := names[0], names[1..];
      if name !in entries then TickAll(entries, jobs, rest, now, fits, cron)
      else
        match TickEntry(entries[name], now, fits(name), cron(entries[name].schedule))
        case Idle => TickAll(entries, jobs, rest, now, fits, cron)
        case Dropped => TickAll(entries - {name}, jobs, rest, now, fits, cron)
        case Threw(left) => (entries[name := left], jobs + [(name, now)], true)
        case Fired(None) => TickAll(entries - {name}, jobs + [(name, now)], rest, now, fits, cron)
        case Fired(Some(next)) => TickAll(entries[name := next], jobs + [(name, now)], rest, now, fits, cron)
  }

  ghost predicate Stored(entries: map<string, Entry>) {
    forall n :: n in entries ==> ValidSchedule(entries[n].schedule)
  }

  function AfterTick(entries: map<string, Entry>, name: string, tick: Tick): map<string, Entry> {
    match tick
    case Idle => entries
    case Dropped => entries - {name}
    case Fired(None) => entries - {name}
    case Fired(Some(next)) => entries[name := next]
    case Threw(left) => entries[name := left]
  }

  lemma {:induction false} Untouched(entries: map<string, Entry>, jobs: seq<(string, int)>, names: seq<string>, now: int,
                                     fits: string -> bool, cron: Schedule -> CronNext, name: string)
    requires Stored(entries) && name !in names
    ensures var after := TickAll(entries, jobs, names, now, fits, cron).0;
      (name in after <==> name in entries) && (name in entries ==> after[name] == entries[name])
    decreases |names|
  {
    hide TickEntry;
    if names != [] {
      var first, rest := names[0], names[1..];
      if first !in entries {
        Untouched(entries, jobs, rest, now, fits, cron, name);
      } else {
        var tick := TickEntry(entries[first], now, fits(first), cron(entries[first].schedule));
        var jobs' := if tick.Fired? then jobs + [(first, now)] else jobs;
        if !tick.Threw? { Untouched(AfterTick(entries, first, tick), jobs', rest, now, fits, cron, name); }
      }
    }
  }

  ghost predicate Throws(entries: map<string, Entry>, name: string, now: int, fits: string -> bool, cron: Schedule -> CronNext)
    requires Stored(entries)
  {
    name in entries && TickEntry(entries[name], now, fits(name), cron(entries[name].schedule)).Threw?
  }

  /** The round is cut short exactly if the tick of a listed entry throws. */
  lemma {:induction false} CutShortExactly(entries: map<string, Entry>, jobs: seq<(string, int)>, names: seq<string>, now: int,
                                           fits: string -> bool, cron: Schedule -> CronNext)
    requires Stored(entries) && NoRepeats(names)
    ensures TickAll(entries, jobs, names, now, fits, cron).2 <==> exists n :: n in names && Throws(entries, n, now, fits, cron)
    decreases |names|
  {
    hide TickEntry;
    if names != [] {
      var first, rest := names[0], names[1..];
      assert names == [first] + rest;
      assert NoRepeats(rest) && first !in rest;
      var tick := if first in entries then TickEntry(entries[first], now, fits(first), cron(entries[first].schedule)) else Idle;
      var jobs' := if tick.Fired? then jobs + [(first, now)] else jobs;
      assert tick.Threw? <==> Throws(entries, first, now, fits, cron);
      if !tick.Threw? {
        var entries' := AfterTick(entries, first, tick);
        CutShortExactly(entries', jobs', rest, now, fits, cron);
        forall n | n in rest ensures Throws(entries', n, now, fits, cron) <==> Throws(entries, n, now, fits, cron) {}
      }
    }
  }

  /** Entries are ticked independently: unless a pattern throws, each listed entry takes exactly its own tick. */
  lemma {:induction false} TickAllEach(entries: map<string, Entry>, jobs: seq<(string, int)>, names: seq<string>, now: int,
                                       fits: string -> bool, cron: Schedule -> CronNext, name: string)
    requires Stored(entries) && NoRepeats(names) && !TickAll(entries, jobs, names, now, fits, cron).2
    requires name in entries && name in names
    ensures var after, tick := TickAll(entries, jobs, names, now, fits, cron).0, TickEntry(entries[name], now, fits(name), cron(entries[name].schedule));
      && !tick.Threw?
      && (name in after <==> name in AfterTick(entries, name, tick))
      && (name in after ==> after[name] == AfterTick(entries, name, tick)[name])
    decreases |names|
  {
    hide TickEntry;
    var first, rest := names[0], names[1..];
    assert names == [first] + rest;
    assert NoRepeats(rest) && first !in rest;
    if first !in entries {
      TickAllEach(entries, jobs, rest, now, fits, cron, name);
    } else {
      var tick := TickEntry(entries[first], now, fits(first), cron(entries[first].schedule));
      var jobs' := if tick.Fired? then jobs + [(first, now)] else jobs;
      if name == first {
        Untouched(AfterTick(entries, first, tick), jobs', rest, now, fits, cron, name);
      } else {
        TickAllEach(AfterTick(entries, first, tick), jobs', rest, now, fits, cron, name);
      }
    }
  }

  /** The names whose own tick creates a job. */
  ghost function Creating(entries: map<string, Entry>, names: seq<string>, now: int, fits: string -> bool, cron: Schedule -> CronNext):
    seq<(string, int)>
    requires Stored(entries)
  {
    if names == [] then []
    else
      var rest := Creating(entries, names[1..], now, fits, cron);
      if names[0] in entries && TickEntry(entries[names[0]], now, fits(names[0]), cron(entries[names[0]].schedule)).Fired? then
        [(names[0], now)] + rest
      else rest
  }

  lemma {:induction false} SameCreating(a: map<string, Entry>, b: map<string, Entry>, names: seq<string>, now: int, fits: string -> bool,
                                        cron: Schedule -> CronNext)
    requires Stored(a) && Stored(b) && forall n :: n in names ==> (n in a <==> n in b) && (n in a ==> a[n] == b[n])
    ensures Creating(a, names, now, fits, cron) == Creating(b, names, now, fits, cron)
    decreases |names|
  {
    hide TickEntry;
    if names != [] {
      assert forall n :: n in names[1..] ==> n in names;
      SameCreating(a, b, names[1..], now, fits, cron);
    }
  }

  /** One tick creates exactly one job for each listed entry whose own tick fires, in the order of the list. */
  lemma {:induction false} TickAllCreates(entries: map<string, Entry>, jobs: seq<(string, int)>, names: seq<string>, now: int,
                                          fits: string -> bool, cron: Schedule -> CronNext)
    requires Stored(entries) && NoRepeats(names) && !TickAll(entries, jobs, names, now, fits, cron).2
    ensures TickAll(entries, jobs, names, now, fits, cron).1 == jobs + Creating(entries, names, now, fits, cron)
    decreases |names|
  {
    hide TickEntry;
    if names != [] {
      var first, rest := names[0], names[1..];
      assert names == [first] + rest;
      assert NoRepeats(rest) && first !in rest;
      if first !in entries {
        TickAllCreates(entries, jobs, rest, now, fits, cron);
      } else {
        var tick := TickEntry(entries[first], now, fits(first), cron(entries[first].schedule));
        var jobs' := if tick.Fired? then jobs + [(first, now)] else jobs;
        var after := AfterTick(entries, first, tick);
        TickAllCreates(after, jobs', rest, now, fits, cron);
        SameCreating(entries, after, rest, now, fits, cron);
      }
    }
  }

  /** The test double's schedulers map and the jobs it has created for it. */
  class SchedulerTable {
    var schedulers: map<string, Entry>
    var created: seq<(string, int)>
    var schedulerRunning: bool

    ghost predicate Valid()
      reads this
    {
      Stored(schedulers)
    }

    /** One tick: collects the due names in map order, then ticks each of them. */
    method RunDueSchedulers(now: int, names: seq<string>, workers: nat, fits: string -> bool, cron: Schedule -> CronNext) returns (threw: bool)
      requires Valid() && NoRepeats(names) && forall n :: n in schedulers <==> n in names
      modifies this
      ensures Valid() && schedulerRunning == old(schedulerRunning)
      ensures old(schedulerRunning) || workers == 0 ==> schedulers == old(schedulers) && created == old(created) && !threw
      ensures !old(schedulerRunning) && workers > 0 ==>
                (schedulers, created, threw) == TickAll(old(schedulers), old(created), names, now, fits, cron)
    {
      hide TickEntry;
      threw := false;
      if schedulerRunning || workers == 0 { return; }
      schedulerRunning := true;
      var due := DueNames(now, names);
      DueOnly(schedulers, schedulers, created, names, due, now, fits, cron);
      var i := 0;
      while i < |due| && !threw
        invariant i <= |due| && Stored(schedulers) && schedulerRunning
        invariant !threw ==> TickAll(schedulers, created, due[i..], now, fits, cron) == TickAll(old(schedulers), old(created), due, now, fits, cron)
        invariant threw ==> (schedulers, created, true) == TickAll(old(schedulers), old(created), due, now, fits, cron)
        decreases |due| - i, !threw
      {
        var name := due[i];
        i := i + 1;
        if name in schedulers {
          match TickEntry(schedulers[name], now, fits(name), cron(schedulers[name].schedule)) {
            case Idle =>
            case Dropped => schedulers := schedulers - {name};
            case Threw(left) =>
              schedulers, created := schedulers[name := left], created + [(name, now)];
              threw := true;
            case Fired(None) => schedulers, created := schedulers - {name}, created + [(name, now)];
            case Fired(Some(next)) => schedulers, created := schedulers[name := next], created + [(name, now)];
          }
        }
      }
      schedulerRunning := false;
    }

    method DueNames(now: int, names: seq<string>) returns (due: seq<string>)
      requires Valid() && NoRepeats(names) && forall n :: n in names ==> n in schedulers
      ensures due == Filtered(schedulers, names, now)
    {
      due := [];
      for i := 0 to |names|
        invariant due + Filtered(schedulers, names[i..], now) == Filtered(schedulers, names, now)
      {
        var entry := schedulers[names[i]];
        if Due(entry, now) { due := due + [names[i]]; }
      }
    }
  }

  predicate Due(e: Entry, now: int) {
    !(e.schedule.mode.AfterComplete? && e.nextRun == 0) && e.nextRun <= now
  }

  function Filtered(entries: map<string, Entry>, names: seq<string>, now: int): seq<string> {
    if names == [] then []
    else if names[0] in entries && Due(entries[names[0]], now) then [names[0]] + Filtered(entries, names[1..], now)
    else Filtered(entries, names[1..], now)
  }

  /** Skipping the names that are not due beforehand changes nothing. */
  lemma {:induction false} DueOnly(entries0: map<string, Entry>, entries: map<string, Entry>, jobs: seq<(string, int)>, names: seq<string>,
                                   due: seq<string>, now: int, fits: string -> bool, cron: Schedule -> CronNext)
    requires Stored(entries) && NoRepeats(names) && due == Filtered(entries0, names, now)
    requires forall n :: n in names ==> n in entries0 && n in entries && entries[n] == entries0[n]
    ensures TickAll(entries, jobs, due, now, fits, cron) == TickAll(entries, jobs, names, now, fits, cron)
    decreases |names|
  {
    if names != [] {
      var first, rest := names[0], names[1..];
      assert names == [first] + rest;
      assert NoRepeats(rest) && first !in rest;
      var tick := TickEntry(entries[first], now, fits(first), cron(entries[first].schedule));
      var jobs' := if tick.Fired? then jobs + [(first, now)] else jobs;
      if !tick.Threw? {
        DueOnly(entries0, AfterTick(entries, first, tick), jobs', rest, Filtered(entries0, rest, now), now, fits, cron);
      }
    }
  }
}
