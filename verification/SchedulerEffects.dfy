/** What ticks, completions and upserts write into the shared entry, told from schedules, slots and limits. */
module SchedulerEffects {
  import opened Wrappers
  import opened SchedulerTimes
  import opened SchedulerChain

  // ---- Completions ----

  /** The entry is parked on this job. */
  ghost predicate ParkedOn(e: StoredEntry, job: nat) {
    e.entry.schedule.mode.AfterComplete? && e.entry.nextRun == 0 && e.inflight == Some(job)
  }

  ghost predicate RunsLeft(e: Entry) {
    e.schedule.limit.Some? ==> e.iterationCount < e.schedule.limit.value
  }

  /** What the end of `job` at `now` makes of the stored entry, having read `raw`: a parked entry runs again one interval
      after the end of its job, or is removed if its limit or end date leave no such run; any other stays as it is.
  */
  ghost predicate EndWrites(before: Option<StoredEntry>, after: Option<StoredEntry>, raw: StoredEntry, job: nat, now: int) {
    if !ParkedOn(raw, job) then after == before
    else
      var t := now + raw.entry.schedule.mode.ms;
      if RunsLeft(raw.entry) && InTime(raw.entry.schedule, t) then
        after == if before == Some(raw) then Some(raw.(entry := raw.entry.(nextRun := t))) else before
      else after == None
  }

  lemma AdvanceWrites(y: System, raw: StoredEntry, job: nat, now: int, cron: CronNext)
    requires ValidSchedule(raw.entry.schedule) && (Parked(raw) ==> raw.inflight.Some?)
    ensures EndWrites(y.stored, Advanced(y, raw, job, now, cron).stored, raw, job, now)
    ensures var y' := Advanced(y, raw, job, now, cron); y' == y.(stored := y'.stored, advanced := y'.advanced)
  {}

  /** In every run a completion writes exactly that, against whatever the entry is by then, and touches nothing else. */
  lemma CompletionWritesExactly(run: seq<System>, steps: seq<Step>, cron: CronOf, i: nat, r: Reader)
    requires IsRun(run, steps, cron) && AllLater(cron) && i < |steps| && steps[i] == WriteCompletion(r)
    ensures EndWrites(run[i].stored, run[i + 1].stored, r.raw, r.job, r.now)
    ensures run[i + 1].unfinished == run[i].unfinished && run[i + 1].nextId == run[i].nextId && run[i + 1].holder == run[i].holder
  {
    RunKeeps(run, steps, cron, i);
    assert SchedulerChain.Next(run[i], run[i + 1], steps[i], cron);
    hide IsRun, Advanced;
    AdvanceWrites(run[i], r.raw, r.job, r.now, cron(r.raw.entry.schedule));
  }

  /** A failure on the server ends its job and writes the same over the stored entry. */
  lemma ServerFailureWritesExactly(run: seq<System>, steps: seq<Step>, cron: CronOf, i: nat, job: nat, now: int, raw: StoredEntry)
    requires IsRun(run, steps, cron) && AllLater(cron) && i < |steps| && steps[i] == FailOnServer(job, now) && run[i].stored == Some(raw)
    ensures EndWrites(run[i].stored, run[i + 1].stored, raw, job, now) && run[i + 1].unfinished == run[i].unfinished - {job}
  {
    RunKeeps(run, steps, cron, i);
    assert SchedulerChain.Next(run[i], run[i + 1], steps[i], cron);
    hide IsRun, Advanced;
    var ended := run[i].(unfinished := run[i].unfinished - {job});
    AdvanceWrites(ended, raw, job, now, cron(raw.entry.schedule));
  }

  /** So an entry changed by a completion runs one interval after that completion. */
  lemma NextRunIsOneIntervalOn(run: seq<System>, steps: seq<Step>, cron: CronOf, i: nat, r: Reader)
    requires IsRun(run, steps, cron) && AllLater(cron) && i < |steps| && steps[i] == WriteCompletion(r)
    requires run[i + 1].stored != run[i].stored && run[i + 1].stored.Some?
    ensures r.raw.entry.schedule.mode.AfterComplete?
    ensures run[i + 1].stored == Some(r.raw.(entry := r.raw.entry.(nextRun := r.now + r.raw.entry.schedule.mode.ms)))
  {
    CompletionWritesExactly(run, steps, cron, i, r);
    hide IsRun;
  }

  // ---- Ticks ----

  /** The job in flight, if the entry names one, is unfinished. */
  ghost predicate InflightRuns(y: System, e: StoredEntry) {
    e.inflight.Some? && e.inflight.value in y.unfinished
  }

  /** A firing tick counts the run and notes its time. */
  ghost function CountedRun(raw: StoredEntry, now: int, nextRun: int): StoredEntry {
    raw.(entry := raw.entry.(lastRun := Some(now), iterationCount := raw.entry.iterationCount + 1, nextRun := nextRun))
  }

  /** The plan of a tick that fires: the last job, or a job with the entry parked or moved on to the run asked for next. */
  ghost predicate FiringPlan(plan: Plan, raw: StoredEntry, now: int, cron: CronNext)
    requires ValidSchedule(raw.entry.schedule)
  {
    var e, s := raw.entry, raw.entry.schedule;
    if IsLastRun(e) then plan == CreateLast
    else if s.mode.AfterComplete? then plan == Create(CountedRun(raw, now, 0))
    else
      && (forall t :: plan == Create(CountedRun(raw, now, t)) <==> RunAfter(s, e.nextRun, now, cron, t) && InTime(s, t))
      && (plan == CreateLast <==> exists t :: RunAfter(s, e.nextRun, now, cron, t) && !InTime(s, t))
  }

  /** The plan of a tick over an unusable template: the run is passed over. */
  ghost predicate PassingPlan(plan: Plan, raw: StoredEntry, now: int, cron: CronNext)
    requires ValidSchedule(raw.entry.schedule)
  {
    var e, s := raw.entry, raw.entry.schedule;
    && (forall t :: plan == Update(raw.(entry := e.(nextRun := t))) <==> RunAfter(s, e.nextRun, now, cron, t) && InTime(s, t))
    && (plan == Delete <==> exists t :: RunAfter(s, e.nextRun, now, cron, t) && !InTime(s, t))
  }

  ghost predicate Plans(y: System, y': System, raw: StoredEntry) {
    y'.holder.TickPlanned? && y'.holder.raw == raw && y' == y.(holder := y'.holder)
  }

  /** What a tick that read a chain parked on a job does: nothing while that job runs, else it moves the chain on. */
  ghost predicate ParkedTick(y: System, y': System, raw: StoredEntry, now: int)
    requires raw.entry.schedule.mode.AfterComplete?
  {
    if InflightRuns(y, raw) then y' == y.(holder := Free)
    else
      var t := now + raw.entry.schedule.mode.ms;
      if RunsLeft(raw.entry) && InTime(raw.entry.schedule, t) then y' == y.(holder := TickCas(raw, raw.(entry := raw.entry.(nextRun := t))))
      else y' == y.(holder := TickPlanned(raw, Delete))
  }

  /** What a tick makes of the entry it read. */
  ghost predicate TickDecides(y: System, y': System, raw: StoredEntry, now: int, templateOk: bool, cron: CronNext)
    requires ValidSchedule(raw.entry.schedule)
  {
    var e, s := raw.entry, raw.entry.schedule;
    if s.mode.AfterComplete? && e.nextRun == 0 && raw.inflight.Some? then ParkedTick(y, y', raw, now)
    else if e.nextRun == 0 || e.nextRun > now then y' == y.(holder := Free)
    else if !RunsLeft(e) || !InTime(s, e.nextRun) || (s.mode.Cron? && cron(now).None?) then y' == y.(holder := TickPlanned(raw, Delete))
    else if !templateOk then Plans(y, y', raw) && PassingPlan(y'.holder.plan, raw, now, cron)
    else if s.mode.AfterComplete? && raw.inflight.Some? && y.stored != Some(raw) then y' == y.(holder := Free)
    else if s.mode.AfterComplete? && InflightRuns(y, raw) then
      y' == y.(stored := Some(raw.(entry := e.(nextRun := 0))), holder := Free)
    else Plans(y, y', raw) && FiringPlan(y'.holder.plan, raw, now, cron)
  }

  lemma FollowingIs(s: Schedule, slot: int, now: int, cron: CronNext)
    requires ValidSchedule(s)
    ensures var next := FollowingNextRun(s, slot, now, cron);
      && (forall t :: next == At(t) <==> RunAfter(s, slot, now, cron, t) && InTime(s, t))
      && (next.Never? <==> exists t :: RunAfter(s, slot, now, cron, t) && !InTime(s, t))
      && (next.BadPattern? <==> s.mode.Cron? && cron(now).None?)
  {
    hide RunAfter;
    RunAfterExactly(s, slot, now, cron);
    var asked := t => RunAfter(s, slot, now, cron, t);
    assert forall t :: asked(t) <==> RunAfter(s, slot, now, cron, t);
    var next := FollowingNextRun(s, slot, now, cron);
    match next {
      case At(t) => assert asked(t) && InTime(s, t);
      case Never => var t :| asked(t) && !InTime(s, t);
      case BadPattern =>
    }
    if exists t :: RunAfter(s, slot, now, cron, t) && !InTime(s, t) {
      var t :| RunAfter(s, slot, now, cron, t) && !InTime(s, t);
      assert asked(t);
    }
  }

  lemma FirePlanIs(raw: StoredEntry, now: int, cron: CronNext)
    requires ValidSchedule(raw.entry.schedule) && !(raw.entry.schedule.mode.Cron? && cron(now).None?)
    ensures FiringPlan(FirePlan(raw, now, cron), raw, now, cron)
  {
    FollowingIs(raw.entry.schedule, raw.entry.nextRun, now, cron);
    hide RunAfter, FollowingNextRun;
  }

  /** Every tick decides by slot, limit, end date, template and the job in flight alone. */
  lemma TickDecidesExactly(y: System, y': System, raw: StoredEntry, now: int, templateOk: bool, cron: CronOf)
    requires TickMoves(y, y', templateOk, cron) && y.holder == TickRead(raw, now)
    ensures TickDecides(y, y', raw, now, templateOk, cron(raw.entry.schedule))
  {
    var c := cron(raw.entry.schedule);
    FollowingIs(raw.entry.schedule, raw.entry.nextRun, now, c);
    if !(raw.entry.schedule.mode.Cron? && c(now).None?) { FirePlanIs(raw, now, c); }
    hide RunAfter, FirePlan, FiringPlan;
    if Parked(raw) { assert FollowingNextRun(raw.entry.schedule, raw.entry.nextRun, now, c) == WithinEnd(raw.entry.schedule, now + raw.entry.schedule.mode.ms); }
    hide FollowingNextRun;
  }

  /** Every closing transaction creates the planned job under the next number and leaves the planned entry, which names it. */
  lemma TickCommitsExactly(y: System, y': System, raw: StoredEntry, plan: Plan, templateOk: bool, cron: CronOf)
    requires TickMoves(y, y', templateOk, cron) && y.holder == TickPlanned(raw, plan)
    ensures y'.holder == Free && y'.readers == y.readers && y'.advanced == y.advanced
    ensures y'.stored == match plan
                         case Delete => None
                         case Update(config) => Some(config)
                         case Create(config) => Some(config.(inflight := Some(y.nextId)))
                         case CreateLast => None
    ensures y'.unfinished == y.unfinished + if plan.Create? || plan.CreateLast? then {y.nextId} else {}
    ensures y'.nextId == y.nextId + if plan.Create? || plan.CreateLast? then 1 else 0
  {}

  /** Moving a parked chain on writes only over the entry as the tick read it. */
  lemma TickAdvancesExactly(y: System, y': System, raw: StoredEntry, config: StoredEntry, templateOk: bool, cron: CronOf)
    requires TickMoves(y, y', templateOk, cron) && y.holder == TickCas(raw, config)
    ensures y' == y.(stored := y'.stored, advanced := y'.advanced, holder := Free)
    ensures y'.stored == if y.stored == Some(raw) then Some(config) else y.stored
  {}

  // ---- Upserts ----

  ghost predicate SameBounds(a: Schedule, b: Schedule) {
    a.tz == b.tz && a.startDate == b.startDate && a.endDate == b.endDate
  }

  /** The first run of a chain taken over from another mode is held back to that mode's pending run. */
  ghost predicate HeldRun(prior: Entry, t: int, held: int) {
    if prior.schedule.mode.AfterComplete? || prior.nextRun <= 0 then held == t
    else held >= t && held >= prior.nextRun && (held == t || held == prior.nextRun)
  }

  /** What an upsert stores over what it read. */
  ghost predicate UpsertSays(e: Option<StoredEntry>, schedule: Schedule, template: string, now: int, existing: Option<StoredEntry>, cron: CronNext)
    requires ValidSchedule(schedule)
  {
    && (e.Some? ==> e.value.entry.schedule == schedule && e.value.template == template
                    && e.value.inflight == (if existing.Some? then existing.value.inflight else None))
    && if existing.None? then
      FreshEntry(e, schedule, now, cron)
    else
      var prior := existing.value.entry;
      if prior.schedule.mode.AfterComplete? && prior.nextRun == 0 && schedule.mode.AfterComplete? then
        StaysParked(e, schedule, now, prior, cron)
      else if SameBounds(prior.schedule, schedule) && prior.schedule.mode == schedule.mode && prior.nextRun != 0 then
        KeepsPhase(e, schedule, now, prior, cron)
      else if schedule.mode.AfterComplete? then
        HoldsBack(e, schedule, now, prior, cron)
      else FreshEntry(e, schedule, now, cron)
  }

  /** A new count from the first run the schedule asks for, if that is in time. */
  ghost predicate FreshEntry(e: Option<StoredEntry>, schedule: Schedule, now: int, cron: CronNext)
    requires ValidSchedule(schedule)
  {
    && (e.Some? <==> exists t :: FirstRun(schedule, now, cron, t) && InTime(schedule, t))
    && (e.Some? ==> FirstRun(schedule, now, cron, e.value.entry.nextRun) && InTime(schedule, e.value.entry.nextRun)
                    && e.value.entry.iterationCount == 0 && e.value.entry.lastRun == None)
  }

  /** A chain goes on waiting for its job; its count lasts while the bounds are the same. */
  ghost predicate StaysParked(e: Option<StoredEntry>, schedule: Schedule, now: int, prior: Entry, cron: CronNext)
    requires ValidSchedule(schedule)
  {
    && (e.Some? <==> exists t :: FirstRun(schedule, now, cron, t) && InTime(schedule, t))
    && (e.Some? ==> e.value.entry.nextRun == 0
                    && e.value.entry.iterationCount == (if SameBounds(prior.schedule, schedule) then prior.iterationCount else 0)
                    && e.value.entry.lastRun == (if SameBounds(prior.schedule, schedule) then prior.lastRun else None))
  }

  /** The same schedule again keeps its pending run and its count. */
  ghost predicate KeepsPhase(e: Option<StoredEntry>, schedule: Schedule, now: int, prior: Entry, cron: CronNext)
    requires ValidSchedule(schedule)
  {
    && (e.None? <==> forall t :: !FirstRun(schedule, now, cron, t))
    && (e.Some? ==> e.value.entry.nextRun == prior.nextRun && e.value.entry.iterationCount == prior.iterationCount
                    && e.value.entry.lastRun == prior.lastRun)
  }

  /** A switch into the chain mode starts a new count, held back to the pending run of the old mode. */
  ghost predicate HoldsBack(e: Option<StoredEntry>, schedule: Schedule, now: int, prior: Entry, cron: CronNext)
    requires ValidSchedule(schedule)
  {
    && (e.Some? <==> exists t, held :: FirstRun(schedule, now, cron, t) && HeldRun(prior, t, held) && InTime(schedule, t) && InTime(schedule, held))
    && (e.Some? ==> (exists t :: FirstRun(schedule, now, cron, t) && HeldRun(prior, t, e.value.entry.nextRun))
                    && InTime(schedule, e.value.entry.nextRun) && e.value.entry.iterationCount == 0 && e.value.entry.lastRun == None)
  }

  lemma InitialIs(s: Schedule, now: int, cron: CronNext)
    requires ValidSchedule(s)
    ensures var next := InitialNextRun(s, now, cron);
      && (forall t :: next == At(t) <==> FirstRun(s, now, cron, t) && InTime(s, t))
      && (next.BadPattern? <==> forall t :: !FirstRun(s, now, cron, t))
  {
    hide FirstRun, InitialNextRun;
    FirstRunExactly(s, now, cron);
    var asked := t => FirstRun(s, now, cron, t);
    assert forall t :: asked(t) <==> FirstRun(s, now, cron, t);
  }

  /** The hold is the only run held back to, and refuses exactly a run it moves past the end date. */
  lemma HoldIs(schedule: Schedule, prior: Entry, t: int)
    requires InTime(schedule, t)
    ensures var next := HoldModeSwitch(prior, t, schedule.endDate);
      && (next.At? ==> HeldRun(prior, t, next.ms) && InTime(schedule, next.ms))
      && (next.At? <==> exists held :: HeldRun(prior, t, held) && InTime(schedule, held))
  {
    var held := if prior.schedule.mode.AfterComplete? || prior.nextRun <= 0 || t >= prior.nextRun then t else prior.nextRun;
    assert HeldRun(prior, t, held);
  }

  lemma SwitchHoldsBack(schedule: Schedule, template: string, now: int, existing: StoredEntry, cron: CronNext)
    requires ValidSchedule(schedule) && schedule.mode.AfterComplete?
    requires !(existing.entry.schedule.mode.AfterComplete? && existing.entry.nextRun == 0)
    requires !(SameBounds(existing.entry.schedule, schedule) && existing.entry.schedule.mode == schedule.mode && existing.entry.nextRun != 0)
    ensures HoldsBack(UpsertEntry(schedule, template, now, Some(existing), cron), schedule, now, existing.entry, cron)
  {
    InitialIs(schedule, now, cron);
    var initial := InitialNextRun(schedule, now, cron);
    hide FirstRun, InitialNextRun, HoldModeSwitch, HeldRun, InTime;
    if initial.At? {
      assert FirstRun(schedule, now, cron, initial.ms) && InTime(schedule, initial.ms);
      HoldIs(schedule, existing.entry, initial.ms);
    }
    forall t | FirstRun(schedule, now, cron, t) && InTime(schedule, t) ensures initial == At(t) {}
  }

  lemma UpsertSaysExactly(schedule: Schedule, template: string, now: int, existing: Option<StoredEntry>, cron: CronNext)
    requires ValidSchedule(schedule)
    ensures UpsertSays(UpsertEntry(schedule, template, now, existing, cron), schedule, template, now, existing, cron)
  {
    InitialIs(schedule, now, cron);
    var initial := InitialNextRun(schedule, now, cron);
    if initial.At? { assert FirstRun(schedule, now, cron, initial.ms) && InTime(schedule, initial.ms); }
    if existing.Some? && schedule.mode.AfterComplete? {
      var prior := existing.value.entry;
      if !(prior.schedule.mode.AfterComplete? && prior.nextRun == 0)
        && !(SameBounds(prior.schedule, schedule) && prior.schedule.mode == schedule.mode && prior.nextRun != 0)
      {
        SwitchHoldsBack(schedule, template, now, existing.value, cron);
      }
    }
    hide FirstRun, InitialNextRun, HoldsBack, HoldModeSwitch;
  }

  /** An upsert writes what it computed, and only if the entry is still what it read. */
  lemma UpsertWritesExactly(y: System, y': System, schedule: Schedule, template: string, now: int, existing: Option<StoredEntry>, cron: CronOf)
    requires UpsertWrites(y, y', cron) && y.holder == UpsertRead(schedule, template, now, existing)
    ensures y'.holder == Free && y'.unfinished == y.unfinished && y'.nextId == y.nextId && y'.readers == y.readers && y'.advanced == y.advanced
    ensures exists e :: UpsertSays(e, schedule, template, now, existing, cron(schedule))
              && y'.stored == if e.Some? && y.stored == existing then e else y.stored
  {
    hide UpsertEntry, UpsertSays;
    UpsertSaysExactly(schedule, template, now, existing, cron(schedule));
  }

  // ---- When each party can move ----

  /** An upsert reads whenever the lock is free, and again exactly if the entry is no longer what it read. */
  lemma UpsertReadsExactly(y: System, schedule: Schedule, template: string, now: int)
    requires ValidSchedule(schedule) && now > 0
    ensures (exists y' :: UpsertReads(y, y', schedule, template, now)) <==>
              y.holder == Free || exists t, before :: y.holder == UpsertRead(schedule, template, t, before) && before != y.stored
  {
    var reading := y.(holder := UpsertRead(schedule, template, now, y.stored));
    if y.holder == Free || exists t, before :: y.holder == UpsertRead(schedule, template, t, before) && before != y.stored {
      assert UpsertReads(y, reading, schedule, template, now);
    }
    if y' :| UpsertReads(y, y', schedule, template, now) && y.holder != Free {
      assert y.holder == UpsertRead(schedule, template, y.holder.now, y.holder.existing);
    }
  }

  /** Any stored entry can be read by a tick that finds the lock free and by the worker of any ended job; any unfinished
      job can end, or fail on the server.
  */
  lemma OthersMoveFreely(y: System, job: nat, now: int, cron: CronOf)
    requires now > 0 && (y.stored.Some? ==> ValidSchedule(y.stored.value.entry.schedule))
    ensures (exists y' :: TickStarts(y, y', now)) <==> y.holder == Free && y.stored.Some?
    ensures (exists y' :: CompletionReads(y, y', job, now)) <==> y.stored.Some? && job < y.nextId && job !in y.unfinished
    ensures (exists y' :: JobEnds(y, y', job)) <==> job in y.unfinished
    ensures (exists y' :: JobFailsOnServer(y, y', job, now, cron)) <==> job in y.unfinished
  {
    hide Advanced;
    if y.stored.Some? {
      var raw := y.stored.value;
      if y.holder == Free { assert TickStarts(y, y.(holder := TickRead(raw, now)), now); }
      if job < y.nextId && job !in y.unfinished {
        assert CompletionReads(y, y.(readers := y.readers + {Reader(job, raw, now)}), job, now);
      }
    }
    if job in y.unfinished {
      var ended := y.(unfinished := y.unfinished - {job});
      assert JobEnds(y, ended, job);
      assert JobFailsOnServer(y, if y.stored.None? then ended else Advanced(ended, y.stored.value, job, now, cron(y.stored.value.entry.schedule)),
                              job, now, cron);
    }
  }
}
