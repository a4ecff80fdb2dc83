/** One scheduler entry shared by locked ticks, locked compare-and-set upserts and unlocked completions. */
module SchedulerChain {
  import opened Wrappers
  import opened SchedulerTimes

  /** The stored entry; `inflight` names the chain job a completion must belong to. */
  datatype StoredEntry = StoredEntry(entry: Entry, template: string, inflight: Option<nat>)

  /** What a tick writes at its end, in one transaction. */
  datatype Plan = Create(config: StoredEntry) | CreateLast | Update(config: StoredEntry) | Delete

  /** Who holds the scheduler lock, and how far it has come. */
  datatype Holder =
    | Free
    | TickRead(raw: StoredEntry, now: int)
    | TickCas(raw: StoredEntry, config: StoredEntry)
    | TickPlanned(raw: StoredEntry, plan: Plan)
    | UpsertRead(schedule: Schedule, template: string, now: int, existing: Option<StoredEntry>)

  /** A completion of `job` that has read the entry and may still write. */
  datatype Reader = Reader(job: nat, raw: StoredEntry, now: int)

  /** The entry, the jobs created for it that are unfinished, the lock, and the completions under way.
      `chain` collects the jobs fired in repeat-after-complete mode since the entry was created or switched to
      that mode, with the job it inherited; `advanced` the jobs whose end has advanced the entry.
  */
  datatype System = System(
    stored: Option<StoredEntry>, unfinished: set<nat>, nextId: nat, holder: Holder, readers: set<Reader>,
    chain: set<nat>, advanced: set<nat>)

  const Start := System(None, {}, 0, Free, {}, {}, {})

  predicate Repeats(e: StoredEntry) {
    e.entry.schedule.mode.AfterComplete?
  }

  /** Waiting for the job in flight. */
  predicate Parked(e: StoredEntry) {
    Repeats(e) && e.entry.nextRun == 0
  }

  function WithNextRun(e: StoredEntry, t: int): StoredEntry {
    e.(entry := e.entry.(nextRun := t))
  }

  // ---- The tick ----

  function FirePlan(raw: StoredEntry, now: int, cron: CronNext): Plan
    requires ValidSchedule(raw.entry.schedule)
  {
    var e := raw.entry;
    var fired := raw.(entry := e.(lastRun := Some(now), iterationCount := e.iterationCount + 1));
    if LimitReached(e.schedule, e.iterationCount + 1) then CreateLast
    else if Repeats(raw) then Create(WithNextRun(fired, 0))
    else
      match FollowingNextRun(e.schedule, e.nextRun, now, cron)
      case At(t) => Create(WithNextRun(fired, t))
      case Never => CreateLast
      case BadPattern => Delete
  }

  /** What the tick does with the entry it read; a parked or held entry also depends on the job in flight. */
  function TickStep(y: System, raw: StoredEntry, now: int, templateOk: bool, cron: CronNext): System
    requires ValidSchedule(raw.entry.schedule)
  {
    var e := raw.entry;
    var following := FollowingNextRun(e.schedule, e.nextRun, now, cron);
    if Parked(raw) && raw.inflight.Some? then
      if raw.inflight.value in y.unfinished then y.(holder := Free)
      else if !following.At? || LimitReached(e.schedule, e.iterationCount) then y.(holder := TickPlanned(raw, Delete))
      else y.(holder := TickCas(raw, WithNextRun(raw, following.ms)))
    else if e.nextRun == 0 || e.nextRun > now then y.(holder := Free)
    else if LimitReached(e.schedule, e.iterationCount) || (e.schedule.endDate.Some? && e.nextRun > e.schedule.endDate.value) then
      y.(holder := TickPlanned(raw, Delete))
    else if following.BadPattern? then y.(holder := TickPlanned(raw, Delete))
    else if !templateOk then
      y.(holder := TickPlanned(raw, if following.At? then Update(WithNextRun(raw, following.ms)) else Delete))
    else if Repeats(raw) && raw.inflight.Some? then AwaitInflight(y, raw, now, cron)
    else y.(holder := TickPlanned(raw, FirePlan(raw, now, cron)))
  }

  /** One server call: parks the entry if it is sameSchedule and the job in flight still runs. */
  function AwaitInflight(y: System, raw: StoredEntry, now: int, cron: CronNext): System
    requires ValidSchedule(raw.entry.schedule) && raw.inflight.Some?
  {
    if y.stored != Some(raw) then y.(holder := Free)
    else if raw.inflight.value in y.unfinished then y.(stored := Some(WithNextRun(raw, 0)), holder := Free)
    else y.(holder := TickPlanned(raw, FirePlan(raw, now, cron)))
  }

  /** Compare-and-set of an advance past the job in flight of `raw`. */
  ghost function CasAdvance(y: System, raw: StoredEntry, config: StoredEntry): System {
    if y.stored == Some(raw) then
      y.(stored := Some(config), advanced := if raw.inflight.Some? then y.advanced + {raw.inflight.value} else y.advanced)
    else y
  }

  /** The closing transaction: job creation with the unconditional write or deletion. */
  ghost function TickCommit(y: System, raw: StoredEntry, plan: Plan): System {
    var added := y.(unfinished := y.unfinished + {y.nextId}, nextId := y.nextId + 1,
                    chain := if Repeats(raw) then y.chain + {y.nextId} else y.chain, holder := Free);
    match plan
    case Delete => y.(stored := None, holder := Free)
    case Update(config) => y.(stored := Some(config), holder := Free)
    case Create(config) => added.(stored := Some(config.(inflight := Some(y.nextId))))
    case CreateLast => added.(stored := None)
  }

  // ---- The upsert ----

  /** The entry an upsert computes from what it read; none if the bounds leave no run. */
  function UpsertEntry(schedule: Schedule, template: string, now: int, existing: Option<StoredEntry>, cron: CronNext): Option<StoredEntry>
    requires ValidSchedule(schedule)
  {
    var initial := InitialNextRun(schedule, now, cron);
    if initial.BadPattern? then None
    else if existing.None? then
      if initial.Never? then None else Some(StoredEntry(Entry(schedule, initial.ms, 0, None), template, None))
    else
      var prior := existing.value.entry;
      var sameBounds := prior.schedule.tz == schedule.tz && prior.schedule.startDate == schedule.startDate && prior.schedule.endDate == schedule.endDate;
      var awaiting := Parked(existing.value) && schedule.mode.AfterComplete?;
      var sameSchedule := sameBounds && prior.schedule.mode == schedule.mode;
      var next :=
        if awaiting then (if initial.Never? then Never else At(0))
        else if sameSchedule && prior.nextRun != 0 then At(prior.nextRun)
        else if initial.At? && schedule.mode.AfterComplete? then HoldModeSwitch(prior, initial.ms, schedule.endDate)
        else initial;
      var keep := if awaiting then sameBounds else sameSchedule && prior.nextRun != 0;
      if !next.At? then None
      else Some(StoredEntry(Entry(schedule, next.ms, if keep then prior.iterationCount else 0, if keep then prior.lastRun else None),
                            template, existing.value.inflight))
  }

  function SetOf(id: Option<nat>): set<nat> {
    if id.Some? then {id.value} else {}
  }

  /** The chain once the upsert's write succeeded: a new entry or a switch into the mode starts another one. */
  function ChainAfter(chain: set<nat>, existing: Option<StoredEntry>, e: StoredEntry): set<nat> {
    if existing.None? then {}
    else if Repeats(e) && !Repeats(existing.value) then SetOf(e.inflight)
    else chain
  }

  // ---- The completion ----

  datatype Advance = Leave | Remove | Write(config: StoredEntry)

  /** What the end of `job` makes of the entry it read. */
  function AdvanceOf(raw: StoredEntry, job: nat, now: int, cron: CronNext): Advance
    requires ValidSchedule(raw.entry.schedule)
  {
    var e := raw.entry;
    if !Parked(raw) || (raw.inflight.Some? && raw.inflight.value != job) then Leave
    else
      var next := FollowingNextRun(e.schedule, e.nextRun, now, cron);
      if !next.At? || LimitReached(e.schedule, e.iterationCount) then Remove
      else Write(WithNextRun(raw, next.ms))
  }

  // ---- Steps ----

  type CronOf = Schedule -> CronNext

  ghost predicate TickStarts(y: System, y': System, now: int) {
    y.holder.Free? && y.stored.Some? && now > 0 && y' == y.(holder := TickRead(y.stored.value, now))
  }

  ghost predicate TickMoves(y: System, y': System, templateOk: bool, cron: CronOf) {
    match y.holder
    case TickRead(raw, now) =>
      ValidSchedule(raw.entry.schedule) && y' == TickStep(y, raw, now, templateOk, cron(raw.entry.schedule))
    case TickCas(raw, config) => y' == CasAdvance(y, raw, config).(holder := Free)
    case TickPlanned(raw, plan) => y' == TickCommit(y, raw, plan)
    case _ => false
  }

  /** The tick gives up before its transaction. */
  ghost predicate TickAborts(y: System, y': System) {
    (y.holder.TickRead? || y.holder.TickCas? || y.holder.TickPlanned?) && y' == y.(holder := Free)
  }

  ghost predicate UpsertReads(y: System, y': System, schedule: Schedule, template: string, now: int) {
    && (y.holder.Free? || (y.holder.UpsertRead? && y.holder.schedule == schedule && y.holder.template == template && y.holder.existing != y.stored))
    && ValidSchedule(schedule) && now > 0 && y' == y.(holder := UpsertRead(schedule, template, now, y.stored))
  }

  /** The upsert throws, writes over exactly what it read, or loses the race and gives up. */
  ghost predicate UpsertWrites(y: System, y': System, cron: CronOf) {
    && y.holder.UpsertRead? && ValidSchedule(y.holder.schedule)
    && var h := y.holder;
       var e := UpsertEntry(h.schedule, h.template, h.now, h.existing, cron(h.schedule));
       if e.Some? && y.stored == h.existing
       then y' == y.(stored := e, chain := ChainAfter(y.chain, h.existing, e.value), holder := Free)
       else y' == y.(holder := Free)
  }

  ghost predicate EntryRemoved(y: System, y': System) {
    y.holder.Free? && y' == y.(stored := None)
  }

  /** A job reaches a final state or is removed. */
  ghost predicate JobEnds(y: System, y': System, job: nat) {
    job in y.unfinished && y' == y.(unfinished := y.unfinished - {job})
  }

  /** A server-side failure ends the job and advances the entry in one call. */
  ghost predicate JobFailsOnServer(y: System, y': System, job: nat, now: int, cron: CronOf) {
    && job in y.unfinished && now > 0
    && var ended := y.(unfinished := y.unfinished - {job});
       if y.stored.None? then y' == ended
       else
         && ValidSchedule(y.stored.value.entry.schedule)
         && y' == Advanced(ended, y.stored.value, job, now, cron(y.stored.value.entry.schedule))
  }

  ghost function Advanced(y: System, raw: StoredEntry, job: nat, now: int, cron: CronNext): System
    requires ValidSchedule(raw.entry.schedule)
  {
    match AdvanceOf(raw, job, now, cron)
    case Leave => y
    case Remove => y.(stored := None)
    case Write(config) => CasAdvance(y, raw, config)
  }

  /** The worker of an ended job reads the entry. */
  ghost predicate CompletionReads(y: System, y': System, job: nat, now: int) {
    && job < y.nextId && job !in y.unfinished && y.stored.Some? && now > 0
    && y' == y.(readers := y.readers + {Reader(job, y.stored.value, now)})
  }

  /** ... and writes, against whatever the entry is by then. */
  ghost predicate CompletionWrites(y: System, y': System, r: Reader, cron: CronOf) {
    && r in y.readers && ValidSchedule(r.raw.entry.schedule)
    && y' == Advanced(y, r.raw, r.job, r.now, cron(r.raw.entry.schedule))
  }

  datatype Step =
    | StartTick(now: int) | MoveTick(templateOk: bool) | AbortTick
    | ReadUpsert(schedule: Schedule, template: string, at: int) | WriteUpsert
    | RemoveEntry | EndJob(job: nat) | FailOnServer(failed: nat, when: int)
    | ReadCompletion(ended: nat, readAt: int) | WriteCompletion(reader: Reader)

  ghost predicate Next(y: System, y': System, step: Step, cron: CronOf) {
    match step
    case StartTick(now) => TickStarts(y, y', now)
    case MoveTick(templateOk) => TickMoves(y, y', templateOk, cron)
    case AbortTick => TickAborts(y, y')
    case ReadUpsert(schedule, template, now) => UpsertReads(y, y', schedule, template, now)
    case WriteUpsert => UpsertWrites(y, y', cron)
    case RemoveEntry => EntryRemoved(y, y')
    case EndJob(job) => JobEnds(y, y', job)
    case FailOnServer(job, now) => JobFailsOnServer(y, y', job, now, cron)
    case ReadCompletion(job, now) => CompletionReads(y, y', job, now)
    case WriteCompletion(r) => CompletionWrites(y, y', r, cron)
  }

  ghost predicate IsRun(run: seq<System>, steps: seq<Step>, cron: CronOf) {
    && |run| == |steps| + 1 && run[0] == Start
    && forall i :: 0 <= i < |steps| ==> Next(run[i], run[i + 1], steps[i], cron)
  }

  ghost predicate AllLater(cron: CronOf) {
    forall s :: Later(cron(s))
  }

  // ---- The invariant ----

  /** Nothing of the chain runs except the job in flight. */
  ghost predicate OnlyInflight(y: System, e: StoredEntry) {
    Repeats(e) ==> forall j :: j in y.chain && j in y.unfinished ==> e.inflight == Some(j)
  }

  /** What stays true of an entry after it was read. */
  ghost predicate ReadOk(y: System, e: StoredEntry) {
    && ValidSchedule(e.entry.schedule) && OnlyInflight(y, e) && e.entry.nextRun >= 0
    && (e.entry.nextRun == 0 ==> Repeats(e) && e.inflight.Some?)
    && (e.inflight.Some? ==> e.inflight.value < y.nextId)
  }

  /** A parked entry waits for a job that has not advanced it yet. */
  ghost predicate EntryOk(y: System, e: StoredEntry) {
    ReadOk(y, e) && (Parked(e) ==> e.inflight.value !in y.advanced)
  }

  ghost predicate AtMostOne(y: System) {
    forall i, j :: i in y.chain && i in y.unfinished && j in y.chain && j in y.unfinished ==> i == j
  }

  ghost predicate IdsOk(y: System) {
    && (forall j :: j in y.unfinished || j in y.chain || j in y.advanced ==> j < y.nextId)
    && (forall j :: j in y.advanced ==> j !in y.unfinished)
    && (forall r :: r in y.readers ==> r.job < y.nextId && r.job !in y.unfinished && ValidSchedule(r.raw.entry.schedule) && r.now > 0)
    && (forall r :: r in y.readers && Parked(r.raw) ==> r.raw.inflight.Some?)
  }

  /** The entry is as the tick read it, or a completion has deleted it. */
  ghost predicate AsRead(y: System, raw: StoredEntry) {
    y.stored.Some? ==> y.stored == Some(raw)
  }

  ghost predicate PlanOk(y: System, raw: StoredEntry, plan: Plan) {
    match plan
    case Delete => !Parked(raw) ==> AsRead(y, raw)
    case Update(c) => !Parked(raw) && AsRead(y, raw) && EntryOk(y, c)
    case Create(c) =>
      && !Parked(raw) && AsRead(y, raw) && ValidSchedule(c.entry.schedule) && c.entry.nextRun >= 0
      && (c.entry.nextRun == 0 ==> Repeats(c)) && (Repeats(c) <==> Repeats(raw)) && NoneRuns(y, raw)
    case CreateLast => !Parked(raw) && AsRead(y, raw) && NoneRuns(y, raw)
  }

  /** When the tick decides to fire in repeat-after-complete mode, no job of the chain is unfinished. */
  ghost predicate NoneRuns(y: System, raw: StoredEntry) {
    Repeats(raw) ==> forall j :: j in y.chain ==> j !in y.unfinished
  }

  ghost predicate HolderOk(y: System) {
    match y.holder
    case Free => true
    case TickRead(raw, now) => now > 0 && ReadOk(y, raw) && (!Parked(raw) ==> AsRead(y, raw))
    case TickCas(raw, c) =>
      && ReadOk(y, raw) && Parked(raw) && c.entry.nextRun > 0 && c == WithNextRun(raw, c.entry.nextRun)
      && raw.inflight.Some? && raw.inflight.value !in y.unfinished
    case TickPlanned(raw, plan) => ReadOk(y, raw) && PlanOk(y, raw, plan)
    case UpsertRead(schedule, _, now, existing) => now > 0 && ValidSchedule(schedule)
  }

  ghost predicate Inv(y: System) {
    AtMostOne(y) && IdsOk(y) && HolderOk(y) && (y.stored.Some? ==> EntryOk(y, y.stored.value))
  }

  // ---- Every step keeps the invariant ----

  lemma TickStartsKeeps(y: System, y': System, now: int)
    requires Inv(y) && TickStarts(y, y', now)
    ensures Inv(y')
  {}

  lemma FirePlanOk(y: System, raw: StoredEntry, now: int, cron: CronNext)
    requires ReadOk(y, raw) && !Parked(raw) && AsRead(y, raw) && NoneRuns(y, raw) && now > 0 && Later(cron)
    ensures PlanOk(y, raw, FirePlan(raw, now, cron))
  {
    NextRunsArePositive(raw.entry.schedule, raw.entry.nextRun, now, cron);
  }

  lemma AwaitInflightKeeps(y: System, raw: StoredEntry, now: int, cron: CronNext)
    requires Inv(y) && y.holder == TickRead(raw, now) && Repeats(raw) && !Parked(raw) && raw.inflight.Some? && Later(cron)
    ensures Inv(AwaitInflight(y, raw, now, cron))
  {
    if y.stored == Some(raw) && raw.inflight.value !in y.unfinished {
      FirePlanOk(y, raw, now, cron);
    }
  }

  lemma HolderMoves(y: System, y': System)
    requires Inv(y) && y' == y.(holder := y'.holder) && HolderOk(y')
    ensures Inv(y')
  {
    hide HolderOk;
  }

  lemma TickStepKeeps(y: System, raw: StoredEntry, now: int, templateOk: bool, cron: CronNext)
    requires Inv(y) && y.holder == TickRead(raw, now) && Later(cron)
    ensures Inv(TickStep(y, raw, now, templateOk, cron))
  {
    assert ValidSchedule(raw.entry.schedule);
    hide AtMostOne, IdsOk, EntryOk, HolderOk, PlanOk, AwaitInflight, TickStep;
    TickStepHolder(y, raw, now, templateOk, cron);
    if !Parked(raw) && Repeats(raw) && raw.inflight.Some? && TickStep(y, raw, now, templateOk, cron) == AwaitInflight(y, raw, now, cron) {
      AwaitInflightKeeps(y, raw, now, cron);
    } else {
      HolderMoves(y, TickStep(y, raw, now, templateOk, cron));
    }
  }

  /** Short of asking for the job in flight, reading and deciding changes nothing but the tick's own state. */
  lemma TickStepHolder(y: System, raw: StoredEntry, now: int, templateOk: bool, cron: CronNext)
    requires Inv(y) && y.holder == TickRead(raw, now) && Later(cron)
    ensures var y' := TickStep(y, raw, now, templateOk, cron);
      || (!Parked(raw) && Repeats(raw) && raw.inflight.Some? && y' == AwaitInflight(y, raw, now, cron))
      || (y' == y.(holder := y'.holder) && HolderOk(y'))
  {
    hide AtMostOne, IdsOk, AwaitInflight, FollowingNextRun;
    NextRunsArePositive(raw.entry.schedule, raw.entry.nextRun, now, cron);
    if !Parked(raw) && !(Repeats(raw) && raw.inflight.Some?) {
      FirePlanOk(y, raw, now, cron);
    }
  }

  lemma CasAdvanceKeeps(y: System, raw: StoredEntry, config: StoredEntry)
    requires Inv(y) && ReadOk(y, raw) && Parked(raw) && config == WithNextRun(raw, config.entry.nextRun) && config.entry.nextRun > 0
    requires raw.inflight.Some? && raw.inflight.value !in y.unfinished
    ensures Inv(CasAdvance(y, raw, config))
  {}

  lemma TickCommitKeeps(y: System, raw: StoredEntry, plan: Plan)
    requires Inv(y) && y.holder == TickPlanned(raw, plan)
    ensures Inv(TickCommit(y, raw, plan))
  {}

  lemma TickMovesKeeps(y: System, y': System, templateOk: bool, cron: CronOf)
    requires Inv(y) && TickMoves(y, y', templateOk, cron) && AllLater(cron)
    ensures Inv(y')
  {
    match y.holder
    case TickRead(raw, now) => TickStepKeeps(y, raw, now, templateOk, cron(raw.entry.schedule));
    case TickCas(raw, config) => CasAdvanceKeeps(y, raw, config);
    case TickPlanned(raw, plan) => TickCommitKeeps(y, raw, plan);
    case _ =>
  }

  lemma UpsertEntryOk(y: System, schedule: Schedule, template: string, now: int, cron: CronNext)
    requires Inv(y) && ValidSchedule(schedule) && now > 0 && Later(cron)
    requires UpsertEntry(schedule, template, now, y.stored, cron).Some?
    ensures var e := UpsertEntry(schedule, template, now, y.stored, cron).value;
      && EntryOk(y.(chain := ChainAfter(y.chain, y.stored, e)), e)
      && AtMostOne(y.(chain := ChainAfter(y.chain, y.stored, e))) && IdsOk(y.(chain := ChainAfter(y.chain, y.stored, e)))
  {
    NextRunsArePositive(schedule, 0, now, cron);
  }

  lemma UpsertWritesKeeps(y: System, y': System, cron: CronOf)
    requires Inv(y) && UpsertWrites(y, y', cron) && AllLater(cron)
    ensures Inv(y')
  {
    var h := y.holder;
    var e := UpsertEntry(h.schedule, h.template, h.now, h.existing, cron(h.schedule));
    if e.Some? && y.stored == h.existing {
      UpsertEntryOk(y, h.schedule, h.template, h.now, cron(h.schedule));
    }
  }

  lemma JobEndsKeeps(y: System, y': System, job: nat)
    requires Inv(y) && JobEnds(y, y', job)
    ensures Inv(y')
  {}

  lemma AdvancedKeeps(y: System, raw: StoredEntry, job: nat, now: int, cron: CronNext)
    requires Inv(y) && ValidSchedule(raw.entry.schedule) && job !in y.unfinished && job < y.nextId && now > 0 && Later(cron)
    requires Parked(raw) ==> raw.inflight.Some?
    ensures Inv(Advanced(y, raw, job, now, cron))
  {
    NextRunsArePositive(raw.entry.schedule, raw.entry.nextRun, now, cron);
    if AdvanceOf(raw, job, now, cron).Write? && y.stored == Some(raw) {
      CasAdvanceKeeps(y, raw, AdvanceOf(raw, job, now, cron).config);
    }
  }

  lemma NextKeeps(y: System, y': System, step: Step, cron: CronOf)
    requires Inv(y) && Next(y, y', step, cron) && AllLater(cron)
    ensures Inv(y')
  {
    match step
    case StartTick(now) => TickStartsKeeps(y, y', now);
    case MoveTick(templateOk) => TickMovesKeeps(y, y', templateOk, cron);
    case AbortTick =>
    case ReadUpsert(_, _, _) =>
    case WriteUpsert => UpsertWritesKeeps(y, y', cron);
    case RemoveEntry =>
    case EndJob(job) => JobEndsKeeps(y, y', job);
    case FailOnServer(job, now) =>
      var ended := y.(unfinished := y.unfinished - {job});
      JobEndsKeeps(y, ended, job);
      if y.stored.Some? { AdvancedKeeps(ended, y.stored.value, job, now, cron(y.stored.value.entry.schedule)); }
    case ReadCompletion(_, _) =>
    case WriteCompletion(r) => AdvancedKeeps(y, r.raw, r.job, r.now, cron(r.raw.entry.schedule));
  }

  /** The invariant holds in every reachable state. */
  lemma {:induction false} RunKeeps(run: seq<System>, steps: seq<Step>, cron: CronOf, i: nat)
    requires IsRun(run, steps, cron) && AllLater(cron) && i < |run|
    ensures Inv(run[i])
    decreases i
  {
    hide Inv, Next;
    if i == 0 {
      StartOk();
    } else {
      RunKeeps(run, steps, cron, i - 1);
      assert Next(run[i - 1], run[i - 1 + 1], steps[i - 1], cron);
      NextKeeps(run[i - 1], run[i], steps[i - 1], cron);
    }
  }

  lemma StartOk()
    ensures Inv(Start)
  {}

  // ---- The theorems ----

  /** At no point of any run are two jobs of a repeat-after-complete chain unfinished. */
  lemma ChainsNeverOverlap(run: seq<System>, steps: seq<Step>, cron: CronOf, i: nat, a: nat, b: nat)
    requires IsRun(run, steps, cron) && AllLater(cron) && i < |run|
    requires a in run[i].chain && a in run[i].unfinished && b in run[i].chain && b in run[i].unfinished
    ensures a == b
  {
    hide IsRun;
    RunKeeps(run, steps, cron, i);
  }

  /** While an entry stays in repeat-after-complete mode, the chain is every job fired for it in that time. */
  lemma {:induction false} ChainIsComplete(run: seq<System>, steps: seq<Step>, cron: CronOf, i: nat, j: nat, id: nat)
    requires IsRun(run, steps, cron) && AllLater(cron) && i <= j < |run|
    requires forall k :: i <= k <= j ==> run[k].stored.Some? && Repeats(run[k].stored.value)
    requires run[i].nextId <= id < run[j].nextId
    ensures id in run[j].chain
    decreases j
  {
    var y, y' := run[j - 1], run[j];
    assert Next(y, run[j - 1 + 1], steps[j - 1], cron);
    RunKeeps(run, steps, cron, j - 1);
    ChainGrows(y, y', steps[j - 1], cron);
    hide IsRun, Next, Inv;
    if id < y.nextId {
      ChainIsComplete(run, steps, cron, i, j - 1, id);
    }
  }

  lemma ChainGrows(y: System, y': System, step: Step, cron: CronOf)
    requires Inv(y) && Next(y, y', step, cron)
    requires y.stored.Some? && Repeats(y.stored.value) && y'.stored.Some? && Repeats(y'.stored.value)
    ensures y.nextId <= y'.nextId && y.chain <= y'.chain && forall id :: y.nextId <= id < y'.nextId ==> id in y'.chain
  {}

  /** The tick's closing write or deletion never hits anything but the value the tick itself read; only the deletion
      of an entry it read parked may come after a completion advanced it.
  */
  lemma TickOverwritesOnlyItsRead(run: seq<System>, steps: seq<Step>, cron: CronOf, i: nat, raw: StoredEntry, plan: Plan)
    requires IsRun(run, steps, cron) && AllLater(cron) && i < |run|
    requires run[i].holder == TickPlanned(raw, plan) && !(plan.Delete? && Parked(raw))
    ensures run[i].stored == None || run[i].stored == Some(raw)
  {
    hide IsRun;
    RunKeeps(run, steps, cron, i);
  }

  /** The same read sideways: a completion's successful write never falls between a tick's read and its closing write,
      except before the deletion of an entry read parked.
  */
  lemma NoAdvanceUnderATick(run: seq<System>, steps: seq<Step>, cron: CronOf, i: nat, r: Reader)
    requires IsRun(run, steps, cron) && AllLater(cron) && i < |steps| && steps[i] == WriteCompletion(r)
    requires run[i + 1].stored != run[i].stored && run[i + 1].stored.Some?
    ensures run[i].holder.TickPlanned? ==> run[i].holder.plan.Delete? && Parked(run[i].holder.raw)
  {
    RunKeeps(run, steps, cron, i);
    assert Next(run[i], run[i + 1], steps[i], cron);
    hide IsRun;
  }

  /** A job advances the entry at most once, however often its completion is processed. */
  lemma AdvancesOnce(run: seq<System>, steps: seq<Step>, cron: CronOf, i: nat, r: Reader)
    requires IsRun(run, steps, cron) && AllLater(cron) && i < |steps| && steps[i] == WriteCompletion(r)
    requires run[i + 1].stored != run[i].stored && run[i + 1].stored.Some?
    ensures r.job !in run[i].advanced && r.job in run[i + 1].advanced && run[i].stored == Some(r.raw) && r.raw.inflight == Some(r.job)
  {
    RunKeeps(run, steps, cron, i);
    assert Next(run[i], run[i + 1], steps[i], cron);
    hide IsRun;
  }

  /** A parked entry is never stranded: it names the job it waits for, and once that job has ended a tick alone
      schedules the next run after its own time, or drops an entry that has none left.
  */
  lemma ParkedIsRecoverable(run: seq<System>, steps: seq<Step>, cron: CronOf, i: nat, e: StoredEntry, now: int)
    requires IsRun(run, steps, cron) && AllLater(cron) && i < |run|
    requires run[i].holder.Free? && run[i].stored == Some(e) && Parked(e) && now > 0
    ensures e.inflight.Some?
    ensures e.inflight.value !in run[i].unfinished ==>
              exists a, b, c :: TickStarts(run[i], a, now) && TickMoves(a, b, true, cron) && TickMoves(b, c, true, cron) && c.holder.Free?
                && (c.stored.Some? ==> c.stored == Some(WithNextRun(e, now + e.entry.schedule.mode.ms)))
  {
    hide IsRun;
    RunKeeps(run, steps, cron, i);
    var y := run[i];
    var a := y.(holder := TickRead(e, now));
    var b := TickStep(a, e, now, true, cron(e.entry.schedule));
    if e.inflight.value !in y.unfinished {
      assert TickStarts(y, a, now) && TickMoves(a, b, true, cron);
      var c := if b.holder.TickCas? then CasAdvance(b, e, b.holder.config).(holder := Free) else TickCommit(b, e, Delete);
      assert TickMoves(b, c, true, cron);
    }
  }
}
