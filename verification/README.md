# glide-mq: cron, flows, dispatch and schedulers in Dafny

A model of the parts of glide-mq whose correctness rests on more than one function at a time, with proofs of the
properties those parts are for. `dafny verify dfyconfig.toml` checks all of it.

The model has five groups of files; `Sequences` and `Wrappers` hold what several of them share.

**Cron** (`Calendar`, `CronText`, `CronParser`, `CronPatterns`, `CronFields`, `CronDays`, `CronMeaning`, `CronWalker`,
`CronUtc`, `CronHorizon`, `CronLeapDays`, `Timezone`, `CronTz`, `CronGaps`, `CronNext`, `CronWeeklyGaps`,
`CronExamples`; `src/utils.ts`). A pattern is text; it parses exactly if every token of every field spells something
in bounds, and then means exactly what the tokens say. Which wall times it matches is told from the calendar alone:
the days of the month, their weekdays and their order. The field-by-field walker with its carries returns the least
match, its step guard never ends a search in UTC, and ten years of search are enough for every pattern that ever
matches, except patterns confined to leap days that name too few of the weekdays leap days fall on; both directions
are proved. A timezone is any function from instants to offsets with whole-minute changes of at most three hours, more
than two days apart. Wall times map to exactly the instants that show them, the bisection finds the instant where a
skipped time resumes, and the search in a timezone returns the next firing under the rules documented at
src/utils.ts:1227-1235: wildcard-time patterns fire at every instant whose wall clock matches, fixed-time patterns
once per matching wall time, at its first instant or at the end of the gap. It gives up exactly if the walk takes more
rounds than its guard allows: never on a fixed-time pattern, nor in a zone whose clock skips at most 2,062 minutes
over the years searched, but always where more matching times than it has steps are skipped first, and one such zone
is given.

**DAG submission** (`Dag`, `DagCycle`, `DagDependents`, `DagSubmission`, `DagProtocol`, `DagSafety`, `DagEffects`;
`src/dag-utils.ts`, `src/flow-producer.ts`, `src/functions/glidemq.lua`). Kahn's sort accepts exactly the valid graphs
and the cycle it reports is real. `addDAG` makes exactly the server calls the graph requires; they interleave with
workers completing jobs and delivering notifications. Every step is told by its effect on the keys of the server. In every reachable state of
every interleaving a node runs only after its dependencies completed; when the submission is over no completion is
left uncounted or unqueued; and when nothing is queued and nothing can run, every node has completed.

**In-memory queue and worker** (`Dispatch`, `TestQueues`, `TestWorkers`, `BatchWorkers`; `src/testing.ts`). Every
operation keeps each waiting job in the dispatch queue exactly once and says what becomes of the queue; removing jobs
leaves the dispatch order of all others as it was. Taking jobs one by one yields exactly the list the queue computes
by sorting, reversing and filtering, which is the queue sorted by who goes before whom. The batch budget is never
exceeded. Each rate window grants at most `max` slots; an interval of the same length that straddles two windows can
hold more exactly if `max` and `duration` are at least 2, and then `2 * max - 1` is attained and never passed.

**In-memory flows** (`FlowRelease`, `TestFlows`, `TestDagFlows`; `src/testing.ts`, `src/testing-flow.ts`). A tree or
DAG is created with one job for each node and exactly its edges, beside whatever runs already. In every later state of
every history of worker steps and further creations a job waits exactly while one of its children has not completed,
and no job of an accepted flow stays stuck.

**Schedulers** (`Grid`, `SchedulerTimes`, `SchedulerChain`, `SchedulerEffects`; `src/utils.ts`, `src/scheduler.ts`,
`src/queue.ts`, `src/base-worker.ts`, `src/testing.ts`). Interval schedules fire on the grid of their start date. What
ticks, completions and upserts write is told from schedules, slots, limits and end dates. Ticks, upserts and
completions sharing one entry never run two jobs of a repeat-after-complete chain at once and never advance the entry
twice for one job. A tick's closing write replaces only the value that tick read, or restores an entry a completion
deleted meanwhile; upserts and advances write only over the value they read. Deletions are unconditional.

Clocks, job results, the offsets of a timezone, the answers of the cron engine inside the scheduler model and the
order in which a server lists a set are parameters of the model. Calls into the server library are atomic steps that
follow `src/functions/glidemq.lua`.

## Where the code and its documentation differ

- The comment at src/utils.ts:802-804 says ten years cover every gap. That fails for patterns such as `0 0 * 2 1#5`
  (the fifth Monday of February): `CronHorizon.HorizonFailsForRareLeapDay` gives a start without a match in ten
  years, and `CronLeapDays.HorizonIsEnoughExactly` says for which patterns the ten years are enough.
- The comment at src/utils.ts:805-806 says a match inside the horizon takes far fewer steps than the guard allows. That
  fails for a wildcard-time pattern in a zone that skips enough matching times first: `CronExamples.MondaysGiveUp` gives
  `* * 2 * * 1` and a zone with sixty weekly gaps, `CronTz.NextCronOccurrenceTz` says the search gives up wherever more
  matching times than steps are skipped first, and `CronGaps.LittleIsEnough` that it does not where little is skipped.
- The slice that `findCyclePath` falls back to (src/dag-utils.ts:188) is unreachable when Kahn's loop got stuck.

## Model

| member | source | states |
|---|---|---|
| Calendar.BeforeIsEarlier | src/utils.ts:932-934 | lexicographic order of valid wall times is the order of their instants, for every year |
| Calendar.WallAt | src/utils.ts:920-930 | every second since the epoch has a valid wall time that converts back to it |
| Calendar.WallAtSeconds | src/utils.ts:920-934 | conversion to an instant and back returns the same wall time |
| Calendar.PlusOneSecondIsNext | src/utils.ts:937-939 | adding a second through the calendar gives the lexicographically next valid wall time, nothing in between |
| CronText.JoinSplit | src/utils.ts:591-605 | splitting at a separator loses nothing and leaves no separator in a piece |
| CronText.SplitJoin | src/utils.ts:591-605 | splitting undoes joining |
| CronText.WordsJoin | src/utils.ts:728-731 | words joined by spaces are found again |
| CronText.DecimalIsRead | src/utils.ts:570 | reading undoes decimal notation |
| CronParser.ReadsExactly | src/utils.ts:574-651 | a token is read as a part exactly when the grammar lets the token spell that part: numbers, names in any case, ranges, steps, L, LW, W and # |
| CronParser.ReadsEverySpelling | src/utils.ts:538-541 | every spelling of a part is read as that part, so no modifier captures a plain token or the other way round |
| CronPatterns.AddRange | src/utils.ts:582-590 | adds exactly the values of the range that lie on the step grid of its first value |
| CronPatterns.ParseCronField | src/utils.ts:578-651 | accepts exactly the fields whose tokens all spell parts in bounds; the values are those some token hits, ascending, and the day modifiers those some token spells |
| CronPatterns.RenderedIsRead | src/utils.ts:538-541 | a written part in bounds is read as itself |
| CronPatterns.RenderedFieldIsRead | src/utils.ts:591-650 | a field written from parts is accepted and says exactly those parts |
| CronPatterns.FoldSunday | src/utils.ts:742-745 | 7 is folded onto 0 and no other value changes |
| CronPatterns.ParseCronPattern | src/utils.ts:728-761 | accepts exactly five or six acceptable fields; the result means what the text says, has a value in every time field, and its unrestricted flags hold exactly when all days are listed (and, for day-of-week, a wildcard is written) |
| CronPatterns.MeaningIsUnique | src/utils.ts:728-761 | a text has one meaning: patterns in search form that mean the same words have the same fields and flags, and the same modifiers up to order |
| CronPatterns.SameWordsSameMatches | src/utils.ts:728-761 | so they match the same wall times |
| CronFields.FiveWords | src/utils.ts:728-761 | five words are minute, hour, day of month, month and day of week, with the seconds at zero; the time is a wildcard exactly if minute or hour hold a star |
| CronFields.SixWords | src/utils.ts:728-761 | six words put the seconds first |
| CronFields.AcceptedWords | src/utils.ts:728-741 | the pattern is accepted exactly if there are five or six words, each acceptable in its own field |
| CronFields.MonthValues | src/utils.ts:543-571 | a month is a number or its English abbreviation in any case, counted from one |
| CronFields.WeekdayValues | src/utils.ts:558-571 | a weekday is a number or its English abbreviation in any case, counted from Sunday as zero |
| CronFields.PlainValues | src/utils.ts:558-571 | in the other fields a value is a decimal number and nothing else |
| CronFields.FieldBounds | src/utils.ts:560-566 | the ranges of the six fields, Sunday being 0 or 7 |
| CronFields.RangesInBounds | src/utils.ts:606-650 | ranges run upwards within the bounds of their field and steps are positive |
| CronFields.ModifiersInBounds | src/utils.ts:669-709 | the days and weekdays the modifiers may name |
| CronFields.HitsExactly | src/utils.ts:582-650 | what each kind of token adds: a number, a range, or every step-th number of one, a bare start running to the end of the field |
| CronDays.NearestWeekdayIsNearest | src/utils.ts:767-772 | the day chosen for W is a weekday of the same month and no weekday of the month is nearer |
| CronDays.LastWeekdayIsLast | src/utils.ts:779 | the day chosen for LW is the last weekday of the month |
| CronDays.NthWeekdayCounts | src/utils.ts:786-787 | the nth rule counts the days of that weekday from the first of the month |
| CronDays.LastDowIsLast | src/utils.ts:785 | the last-such-weekday rule holds exactly if the weekday does not come again in the month |
| CronMeaning.MatchesByTheCalendar | src/utils.ts:763-800 | a pattern matches a wall time exactly if its month and time are listed and its date is allowed by the restricted day field, or by either if both are restricted; allowed means listed, or the last day, the last workday, the workday nearest to n, the last or the nth such weekday of the month |
| CronWalker.SkipMonths | src/utils.ts:1144-1156 | jumping to the next listed month, or over December, passes no match |
| CronWalker.SkipToNextMonth | src/utils.ts:1158-1169 | carrying past the end of a month passes no match |
| CronWalker.SkipDay | src/utils.ts:1170-1175 | leaving a day that does not match passes no match |
| CronWalker.SkipHours | src/utils.ts:1177-1188 | jumping to the next listed hour or the next day passes no match |
| CronWalker.SkipMinutes | src/utils.ts:1190-1201 | jumping to the next listed minute or the next hour passes no match |
| CronWalker.SkipRestOfMinute | src/utils.ts:1208-1212 | leaving a minute without a further listed second passes no match |
| CronWalker.SkipSeconds | src/utils.ts:1203-1213 | jumping to the next listed second passes no match |
| CronWalker.AddOneSecond | src/utils.ts:937-939 | returns the next wall time: valid, later, and with no valid time in between |
| CronWalker.CheckFields | src/utils.ts:1143-1219 | one round either finds a matching wall time or moves on without passing a match, and the steps that may still be needed shrink |
| CronWalker.SearchCronWall | src/utils.ts:1129-1221 | finds the least wall time at or after the start that matches and resolves; reports an empty horizon only if there is none through the tenth year; gives up exactly if the walk takes more rounds than the guard allows, hence only after turning down tens of thousands of matching times, and always if it must turn down more of them than it has steps |
| CronUtc.NextCronOccurrenceUtc | src/utils.ts:1116-1120 | returns the least matching second strictly after the given instant; throws if and only if nothing matches through the end of the tenth year, never because of the step guard |
| CronUtc.NeverRejected | src/utils.ts:805-807 | a search in UTC turns down no match, so the step guard cannot end it |
| CronHorizon.HorizonIsEnough | src/utils.ts:802-804 | from every start a pattern that ever matches does so in the years searched, unless it is confined to leap days |
| CronHorizon.HorizonFailsForRareLeapDay | src/utils.ts:802-804 | the fifth Monday of February matches in 2044 but not within ten years of 2025 |
| CronHorizon.FifthRecurs | src/utils.ts:783-788 | any month but February has a fifth given weekday within seven years |
| CronLeapDays.HorizonIsEnoughExactly | src/utils.ts:802-804 | for a pattern that ever matches, ten years suffice from every start if and only if it is not confined to leap days or names the fifth Monday, Wednesday, Friday and Saturday and either Tuesday or both Sunday and Thursday |
| CronLeapDays.NearCentury | src/utils.ts:802-804 | the weekdays of the leap days around a century that is no leap year, for every such century |
| CronLeapDays.TooFewFifths | src/utils.ts:802-804 | for every other leap-day pattern there is a start with ten years of silence |
| CronNext.UtcAlwaysFindsExactly | src/utils.ts:1116-1120 | the search in UTC succeeds from every instant if and only if that condition on the pattern holds |
| CronNext.LiteralDateAlwaysFound | src/utils.ts:802-804 | with day-of-week unrestricted one listed date that exists in some year is found from every instant, 29 February across skipped leap years included |
| CronNext.NextCronOccurrence | src/utils.ts:1022-1027 | fails exactly for a malformed pattern, and otherwise answers for what the text says, in UTC or in the given zone; gives up never in UTC or where little time is skipped, and always where too much is |
| Timezone.SummerTimeIsAZone | src/utils.ts:941-943 | a zone with a spring gap and a repeated hour satisfies the rules assumed of zones |
| Timezone.TzOffsetMs | src/utils.ts:946-950 | the offset recomputed from wall-clock parts is the zone's offset at that instant |
| Timezone.InstantsExact | src/utils.ts:957-972 | the instants returned for a wall time are exactly those that show it, in ascending order without repeats |
| Timezone.AtMostTwice | src/utils.ts:952-956 | a wall time has at most two instants |
| Timezone.FindGapEnd | src/utils.ts:978-993 | the loop ends, and for a skipped wall time on the very instant where the clock resumes |
| Timezone.GapEndExact | src/utils.ts:974-993 | for a wall time without instants the bisection returns the very instant of the transition that skips it |
| Timezone.OccurrenceIsFirstReach | src/utils.ts:1226-1235 | the instant assigned to a wall time is the first whose wall clock has reached it |
| Timezone.OccurrenceMonotone | src/utils.ts:1226-1235 | later wall times have instants no earlier |
| Timezone.OccurrenceCollision | src/utils.ts:1234-1235 | two wall times share an instant only if a gap skips one of them |
| CronTz.ScanInstants | src/utils.ts:1244-1254 | the scan across a fall-back returns the first matching instant of its range |
| CronTz.WildcardFound | src/utils.ts:1257-1272 | what the wall-order walk finds for a wildcard-time pattern is the least matching instant, fall-back repeats included |
| CronTz.FixedFound | src/utils.ts:1257-1272 | what it finds for a fixed-time pattern is the least occurrence after the given instant |
| CronTz.GivesUpOnGapsOnly | src/utils.ts:805-807 | the step guard can end a search only for a wildcard-time pattern in a zone that skips a six-digit number of matching times |
| CronTz.HorizonIsEmpty | src/utils.ts:1220 | an empty horizon means that nothing fires on a wall time of the years searched |
| CronTz.NextCronOccurrenceTz | src/utils.ts:1237-1273 | returns the least firing strictly after the given instant under the documented DST rules, or reports an empty horizon truthfully; gives up exactly if the walk takes too many rounds, hence only on wildcard-time patterns where very many matching times are skipped, and whenever more than 200,000 are skipped before anything fires |
| CronGaps.LittleIsEnough | src/utils.ts:805-807 | if the forward jumps of the zone over the searched years add up to at most 2,062 minutes, the step guard cannot end the search |
| CronGaps.SkippedByJump | src/utils.ts:974-977 | every wall time skipped in those years is skipped by a forward jump after the start |
| CronWeeklyGaps.GapsObeyTheRules | src/utils.ts:941-943 | a zone that skips an hour every Monday for sixty weeks satisfies the rules assumed of zones |
| CronWeeklyGaps.GivesUpThoughItFires | src/utils.ts:805-807 | there a pattern for Mondays at two fires in week 61, but more matching times than the walk has steps are skipped before |
| CronExamples.FifthMondayText | src/utils.ts:728-761 | `0 0 * 2 1#5` is accepted and says the fifth Monday of February |
| CronExamples.FifthMondayFails | src/utils.ts:802-804 | however that text is read, it has a match, and from some instant none within ten years |
| CronExamples.MondaysGiveUp | src/utils.ts:1237-1273 | asked from the epoch for the next run of `* * 2 * * 1` in that zone, the search gives up although the pattern fires |
| CronTz.RunEnumeratesFires | src/utils.ts:1237-1273 | calling it again from each answer lists every firing exactly once, none missed or doubled |
| CronTz.FixedFiresAtFirstReach | src/utils.ts:1232-1235 | a fixed-time pattern fires exactly at the first instants its matching wall times are reached |
| Dag.BuildGraph | src/dag-utils.ts:23-69 | maps, in-degrees and edges agree with the nodes, repeats counted; refuses repeated names, unknown dependencies and self-dependencies |
| Dag.Kahn | src/dag-utils.ts:116-136 | processes each node at most once after all its dependencies; what is left has pending dependencies |
| Dag.SortedIsAcyclic | src/dag-utils.ts:108-112 | an order with dependencies first rules out every closed walk |
| DagCycle.CycleSearch.Dfs | src/dag-utils.ts:162-180 | either closes a walk of real edges or shows that no cycle is reachable from the node |
| DagCycle.FindCyclePath | src/dag-utils.ts:151-189 | when every remaining node depends on a remaining node, returns a closed walk of real edges; the fallback is never reached |
| DagCycle.LeftoverIsStuck | src/dag-utils.ts:138-143 | every node Kahn's loop leaves over depends on another one left over |
| DagCycle.TopoSort | src/dag-utils.ts:113-146 | succeeds exactly for valid DAGs, with every node once and after its dependencies; otherwise names a real defect |
| DagCycle.ValidateDag | src/dag-utils.ts:76-106 | accepts exactly what the sort accepts |
| DagDependents.Dependents | src/testing-flow.ts:69-70 | lists exactly the nodes that depend on each node, in the in-memory producer each of them once, in the other as often as it names the dependency |
| DagSubmission.Dependents | src/flow-producer.ts:565-574 | the producer's lists of dependents are the edges of the topology |
| DagSubmission.Levels | src/flow-producer.ts:576-591 | a node lies above its dependencies, and exactly the nodes without any are at level 0 |
| DagSubmission.PresetLeaves | src/flow-producer.ts:606-645 | before any leaf exists every leaf is in the deps SET of each of its dependents |
| DagSubmission.SubmitLevel | src/flow-producer.ts:647-803 | each node of a level is added once, by a call that is legal at that point |
| DagSubmission.LevelCalled | src/flow-producer.ts:599-1061 | what a level adds to the calls is exactly what the graph requires for its nodes |
| DagSubmission.WireLevel | src/flow-producer.ts:859-951 | exactly the edges the submissions left open are put in the parent's deps SET and linked |
| DagSubmission.Reconcile | src/flow-producer.ts:1040-1058 | every cross-queue edge is reconciled with the child's state |
| DagSubmission.AddDag | src/flow-producer.ts:544-1063 | refuses exactly the invalid graphs; otherwise the calls are exactly those that add every node once and settle every edge, the leaf edges a call already made left out, and they are well ordered |
| DagSafety.ReadyExactly | src/functions/glidemq.lua:247-255 | the remaining count reaches zero exactly when every member of the deps SET is counted |
| DagSafety.CountEffect | src/functions/glidemq.lua:286-311 | counting a completion marks one pair and releases the parent exactly if that was the last |
| DagEffects.CountExactly | src/functions/glidemq.lua:247-311 | whatever is parked, a completion is dropped without its parent, parked if the child is not registered, and otherwise counted together with the parked ones of registered children; a parent with nothing left uncounted may run |
| DagSafety.ApplyKeeps | src/flow-producer.ts:593-1063 | every call of the producer keeps the protocol invariant, whatever the workers did before it |
| DagSafety.CompleteKeeps | src/functions/glidemq.lua:1391-1448 | a completion notifying all its parents keeps it |
| DagSafety.DeliverKeeps | src/base-worker.ts:1672-1695 | delivering a queued notification keeps it |
| DagEffects.CompletesExactly | src/functions/glidemq.lua:1391-1448 | a completion marks the job completed, counts it in every parent of its own queue, queues it for every other, and lets exactly the waiting jobs with nothing left uncounted run |
| DagEffects.DeliversExactly | src/base-worker.ts:1672-1695 | a delivery takes the notification off the queue and counts it |
| DagEffects.CallsExactly | src/flow-producer.ts:593-1063 | each call of the producer stores a job in its first state, adds a member or a link, or counts a completion it found |
| DagEffects.StepsExactly | src/flow-producer.ts:593-1063 | every step of every run is one of these, with exactly that effect |
| DagSafety.RunKeeps | src/flow-producer.ts:606-645 | the invariant holds after every prefix of every interleaving |
| DagSafety.NeverReleasedEarly | src/flow-producer.ts:606-611 | in every reachable state a node that may run or has run has only completed dependencies |
| DagSafety.NoneUnnotified | src/flow-producer.ts:848-858 | after the submission a completed dependency is counted by every dependent or its notification is queued, cross-queue and multi-dependent leaves included |
| DagSafety.ReleasedWhenDone | src/flow-producer.ts:556-560 | after the submission, with nothing queued, a node waits exactly while a dependency is unfinished |
| DagSafety.NothingStuck | src/flow-producer.ts:556-560 | after the submission, if nothing can run and nothing is queued, every node has completed |
| Dispatch.StableSortIsStable | src/testing.ts:1075-1077 | the sort is ascending and keeps the order within each priority |
| Dispatch.NextIsHead | src/testing.ts:2219-2234 | the job that goes before all others is the head of the computed order, and removing it leaves the tail |
| Dispatch.OrderExactly | src/testing.ts:1063-1080 | the computed order is the queue sorted by who goes before whom: prioritized jobs by number and then place, then LIFO jobs from the latest, then the others by place |
| Dispatch.RemovalKeepsOrder | src/testing.ts:1063-1080 | removing items takes exactly them out of the dispatch order and keeps the order of the rest |
| Dispatch.AppendedPlace | src/testing.ts:1063-1080 | an appended item goes into its place among the prioritized ones, ahead of all LIFO items, or to the very end |
| TestQueues.DropKeepsOrder | src/testing.ts:1087-1094 | dropping the entries of some ids from the queue takes exactly their items out of the dispatch order |
| TestQueues.TestQueue.DequeueRecord | src/testing.ts:1087-1094 | in-place compaction removes exactly the entries of one id |
| TestQueues.TestQueue.EnqueueWaiting | src/testing.ts:1097-1109 | the record is waiting and last in the queue, once |
| TestQueues.TestQueue.EnqueuePrioritized | src/testing.ts:1116-1125 | the record is prioritized and last in the queue, once |
| TestQueues.TestQueue.PromotePrioritized | src/testing.ts:1128-1134 | exactly the queued prioritized jobs of the store become waiting |
| TestQueues.TestQueue.ParkDelayed | src/testing.ts:1137-1141 | the record is delayed and has no entry |
| TestQueues.TestQueue.InsertRecord | src/testing.ts:1009-1056 | a new record is queued, parked or left waiting for children, and the queue stays exact |
| TestQueues.TestQueue.RemoveJob | src/testing.ts:1169-1178 | the job and its entry are gone, nothing else is, and the other entries keep their order |
| TestQueues.TestQueue.Revoke | src/testing.ts:1319-1339 | a job that has not started fails and only its entry leaves the queue, any other is only flagged |
| TestQueues.TestQueue.Drain | src/testing.ts:1467-1494 | exactly the jobs named go, with their entries; the surviving entries keep their order |
| TestQueues.TestQueue.Obliterate | src/testing.ts:1345-1372 | refuses while a job is active unless forced, and otherwise empties store and queue |
| TestQueues.TestQueue.RetryRecord | src/testing.ts:1522-1529 | a retried job is waiting with one entry at the end, the others as before |
| TestQueues.TestQueue.PromotionDue | src/testing.ts:2145-2163 | the timer appends the job to the queue only if it is still the stored record and delayed |
| TestQueues.TestQueue.Signal | src/testing.ts:2045-2064 | resuming adds one entry although it looks for no older one |
| TestQueues.TestQueue.ChangePriority | src/testing.ts:325-346 | waiting and prioritized swap with the priority, in place, in exactly the states allowed |
| TestQueues.TestQueue.ChangeDelay | src/testing.ts:352-377 | the job is parked without its entry, appended to the queue or left alone by its state and the delay |
| TestQueues.TestQueue.Promote | src/testing.ts:378-385 | exactly a delayed job becomes waiting, at the end of the queue |
| TestQueues.TestQueue.HandleFailure | src/testing.ts:2892-2952 | a failed attempt parks or fails the record if it is still stored, and leaves the queue alone |
| TestQueues.TestQueue.ReleaseParent | src/testing.ts:799 | a parent is appended to the queue exactly when it waits for children and none is pending |
| TestQueues.TestQueue.ParkWaitingChildren | src/testing.ts:807-814 | the job waits for children exactly while one is pending, and is appended to the queue otherwise |
| TestQueues.TestQueue.Compact | src/testing.ts:2203-2217 | for any queue contents, in-place compaction keeps exactly the first entry of each waiting job of the store |
| TestQueues.ScanNext | src/testing.ts:2219-2234 | picks the job that goes before all others: the first of the least priority, else the newest LIFO job, else the oldest |
| TestQueues.TestQueue.TakeNextWaiting | src/testing.ts:2191-2194 | for any queue contents, takes the waiting job that goes before all others and leaves the others in place; it is the head of the dispatch order, which keeps its tail |
| TestQueues.TestQueue.WaitingInDispatchOrder | src/testing.ts:1063-1080 | lists the dispatch order of the live entries and of waiting jobs without one, of which a valid queue has none |
| TestQueues.TestQueue.NoneWithoutEntry | src/testing.ts:1072-1074 | in a valid queue no waiting job lacks an entry |
| TestQueues.TestQueue.DispatchAll | src/testing.ts:2184-2194 | draining dispatches exactly the list computed up front |
| TestWorkers.AtMostTwiceMax | src/testing.ts:2665-2679 | at most 2 * max slots are granted in any half-open interval of one duration |
| TestWorkers.OneFewer | src/testing.ts:2665-2679 | one fewer once a dispatch has opened the first window |
| TestWorkers.AttemptsKeep | src/testing.ts:2665-2679 | any series of attempts is granted a history of windows with at most max slots each |
| TestWorkers.BurstsExactly | src/testing.ts:2665-2679 | once the clock is one duration past the epoch, some interval of one duration can hold more than max slots exactly if max and duration are at least 2; 2 * max - 1 is then attained and never passed |
| TestWorkers.RateWindow.AcquireRateSlot | src/testing.ts:2665-2679 | grants a slot exactly when not paused and the window has room; otherwise answers the time to the end of the pause, or to the first instant with room; the window is that of all attempts so far |
| TestWorkers.TestWorker.FindNextWaiting | src/testing.ts:2655-2663 | a slot is consumed exactly when a job is taken; while limited nothing leaves the queue |
| TestWorkers.TestWorker.ProcessAvailable | src/testing.ts:2618-2646 | starts a prefix of the dispatch order and stops only when full, empty or limited at the reading it stopped at |
| BatchWorkers.KeptCount | src/testing.ts:2998 | the filter keeps every current record as often as it was there, and no other |
| BatchWorkers.KeptConcat | src/testing.ts:2998 | it goes piece by piece, so the records keep their order |
| BatchWorkers.BatchWorker.CapIsTheMost | src/testing.ts:2981-2997 | a batch may hold exactly as many records as keep it within its size and all active ones within the prefetch budget, alone at concurrency 1 |
| BatchWorkers.BatchWorker.WithinBudget | src/testing.ts:3050-3051 | active and claimed records together stay within the prefetch budget, and at concurrency 1 none is claimed beside a running batch |
| BatchWorkers.BatchWorker.ProcessAvailableBatch | src/testing.ts:2991-3026 | keeps exactly the claimed records that are current, claims waiting records in order, as many as fit, starts the batch exactly when it is full or not to be held, and never exceeds the budget |
| BatchWorkers.BatchWorker.FlushBatch | src/testing.ts:3047-3054 | starts exactly the claimed records that are current, in order, within the budget |
| BatchWorkers.BatchWorker.BatchSettled | src/testing.ts:3139-3145 | frees the batch's records, then starts or holds exactly the still current claims and the next waiting records that fit, keeping the budget and the single batch at concurrency 1 |
| BatchWorkers.BatchWorker.Close | src/testing.ts:3239-3259 | hands back exactly the claimed records that are current, in order |
| FlowRelease.SettleParentsKeeps | src/testing.ts:786-801 | settling a completion with all parents keeps links, counts and gates |
| FlowRelease.ApplyKeeps | src/testing.ts:786-814 | starting, completing, failing, retrying and parking all keep them |
| FlowRelease.StepDoes | src/testing.ts:786-814 | what each step does to the records: a completion completes its job, counts it in every parent and releases exactly the parents whose children have all completed; the other steps change one state; nothing else changes |
| FlowRelease.EnabledExactly | src/testing.ts:786-814 | a step can be taken exactly if its job is in the state it starts from |
| FlowRelease.CreationIsSound | src/testing.ts:735-761 | a flow created beside others leaves links, counts, gates and ranking sound |
| FlowRelease.HistoryIsSound | src/testing.ts:735-814 | every history of worker steps and creations stays sound |
| FlowRelease.WaitsExactlyWhilePending | src/testing.ts:742-814 | in every state of such a history a job waits for children exactly while one has not completed |
| FlowRelease.NothingStuck | src/testing.ts:742-814 | if every job that ran has completed and nothing can run, no job is left |
| FlowRelease.DepsAreFixed | src/testing.ts:786-814 | running jobs and creating flows never changes who waits for whom |
| TestFlows.AddJobKeeps | src/testing.ts:742-775 | a job created with its parents keeps the invariant of a flow under construction |
| TestFlows.AttachKeeps | src/testing.ts:763-767 | so does linking a sub-flow root afterwards |
| TestFlows.FlowProducer.AddFlowJob | src/testing.ts:742-761 | creates one job registered with each of its parents |
| TestFlows.GrownCreates | src/testing-flow.ts:120-123 | what is built beside finished flows is not linked to them |
| TestFlows.FlowProducer.BuildTree | src/testing-flow.ts:124-153 | the new jobs are exactly those of the tree, one for each node; they have exactly its edges, each child's only parent being its parent in the tree; leaves can run and parents wait, and older jobs are untouched |
| TestFlows.FlowProducer.Work | src/testing.ts:786-814 | a worker's step does exactly that to the store and keeps it ready for further flows |
| TestFlows.FlowProducer.FlowsRunThrough | src/testing.ts:742-814 | from the store of any finished series of creations and steps on, jobs wait exactly while a child is pending and none is left stuck |
| TestDagFlows.AddDag | src/testing-flow.ts:60-80 | refuses exactly the invalid graphs without touching the store; otherwise each node has its own job, which waits for exactly the jobs of its dependencies and is linked to each parent once |
| SchedulerTimes.InitialIsLeastGridPoint | src/utils.ts:1046-1058 | the first run, if there is one within the bounds, is the least startDate + k * every not before now |
| SchedulerTimes.FollowingIsLeastGridPoint | src/utils.ts:1098-1106 | the next run is the least point of the slot's grid after the tick |
| SchedulerTimes.FirstRunExactly | src/utils.ts:1029-1064 | the first run is the one the schedule asks for, at once or at its start date, at the first occurrence or on its grid, unless the end date or the pattern leaves none |
| SchedulerTimes.RunAfterExactly | src/utils.ts:1083-1114 | the run after a tick is one interval later, the next occurrence or the next point of the slot's grid, under the same limits |
| SchedulerTimes.TickExactly | src/testing.ts:2401-2465 | a tick fires exactly a due slot within limit and end date and with a usable template, counts it, and moves on, parks or ends the entry |
| SchedulerTimes.NextRunsArePositive | src/utils.ts:1029-1114 | computed runs are after the epoch, so 0 is free as a sentinel |
| SchedulerTimes.IntervalRun | src/testing.ts:2379-2470 | over any series of ticks an interval schedule fires only grid points, each the least after the tick before, within limit and end date |
| SchedulerTimes.SlotsIncrease | src/testing.ts:2379-2470 | fired slots strictly increase, so none fires twice |
| SchedulerTimes.UpsertedRun | src/utils.ts:1029-1064 | an upserted interval schedule fires on the grid of its start date, from its first point not before now |
| SchedulerTimes.CutShortExactly | src/testing.ts:2401-2465 | a tick over all entries stops early exactly if the pattern of a listed entry throws |
| SchedulerTimes.TickAllEach | src/testing.ts:2401-2465 | one tick over all entries gives each listed entry exactly its own tick |
| SchedulerTimes.TickAllCreates | src/testing.ts:2401-2465 | one tick creates one job for each listed entry whose own tick fires, in order |
| SchedulerTimes.SchedulerTable.RunDueSchedulers | src/testing.ts:2379-2470 | collecting the due names first and ticking them has the effect of ticking all entries in map order, entries with a bad template dropped |
| SchedulerChain.TickMovesKeeps | src/scheduler.ts:518-765 | each step of a tick keeps the protocol invariant |
| SchedulerChain.UpsertWritesKeeps | src/queue.ts:1508-1593 | so does the compare-and-set of an upsert |
| SchedulerChain.AdvancedKeeps | src/base-worker.ts:1628-1668 | so does a completion writing against a read of any age |
| SchedulerChain.ChainsNeverOverlap | src/scheduler.ts:470-487 | at no point of any interleaving are two jobs of a repeat-after-complete chain unfinished |
| SchedulerChain.ChainIsComplete | src/scheduler.ts:684-735 | while an entry stays in that mode, the chain is every job created for it |
| SchedulerChain.TickOverwritesOnlyItsRead | src/scheduler.ts:742-757 | the tick's closing write or deletion hits only the value the tick read, or an entry a completion deleted; only the deletion of an entry read parked may come later |
| SchedulerChain.NoAdvanceUnderATick | src/base-worker.ts:1655-1664 | a completion's successful write never falls between a tick's read and its closing write, unless the tick deletes an entry it read parked |
| SchedulerChain.AdvancesOnce | src/base-worker.ts:1642-1646 | a job advances the entry at most once, only as the job in flight, and only over the value it read |
| SchedulerChain.ParkedIsRecoverable | src/scheduler.ts:463-487 | a parked entry names its job, and once that has ended a tick alone schedules the next run or drops the entry |
| SchedulerEffects.CompletionWritesExactly | src/base-worker.ts:1628-1668 | in every run a completion of the job an entry is parked on moves that entry to one interval later, if limit and end date allow and it is still as read, and otherwise removes it; no other completion writes |
| SchedulerEffects.ServerFailureWritesExactly | src/functions/glidemq.lua:885-920 | a failure on the server ends its job and does the same |
| SchedulerEffects.NextRunIsOneIntervalOn | src/utils.ts:1095-1096 | an entry changed by a completion runs one interval after it |
| SchedulerEffects.TickDecidesExactly | src/scheduler.ts:572-723 | a tick decides by slot, limit, end date, template and the job in flight: to leave, delete, pass over, park, move on or fire the entry |
| SchedulerEffects.TickCommitsExactly | src/scheduler.ts:742-757 | the closing transaction creates the planned job under the next number and leaves the planned entry, which names it |
| SchedulerEffects.TickAdvancesExactly | src/scheduler.ts:463-487 | moving a parked chain on writes only over the entry as read |
| SchedulerEffects.UpsertWritesExactly | src/queue.ts:1508-1593 | an upsert keeps a parked chain waiting and an unchanged schedule in its phase, holds a switch into the chain mode back to the pending run, and starts anything else afresh; it writes only over what it read |
| SchedulerEffects.UpsertReadsExactly | src/queue.ts:1507-1590 | an upsert reads under the free lock, and again exactly if the entry is no longer what it read |
| SchedulerEffects.OthersMoveFreely | src/base-worker.ts:1628-1650 | any stored entry can be read under the free lock by a tick and without it by the worker of any ended job; any unfinished job can end |

## Left out

- CronTz.NextCronOccurrenceTz: the exact condition for giving up counts the rounds of the walk; in terms of the zone it is bounded from both sides (at most 2,062 minutes skipped, more than 200,000 matching times skipped first), with no closed form between.
- CronWalker.SearchCronWall: the rounds are counted by a recursive function and bounded from both sides by the times turned down.
- TestWorkers.TestWorker.ProcessAvailable: expired jobs, token budgets and the processors themselves are not modelled, so `activeCount` only grows within one call.
- TestQueues.TestQueue.Suspend: only the running processor suspends its job; suspending through another handle is not covered.
- TestQueues.TestQueue.ReleaseParent: the number of pending children is a parameter; it is the subject of FlowRelease.
- TestQueues.TestQueue.ParkWaitingChildren: the same.
- TestQueues.TestQueue.TakeNextWaiting: records held in a partial batch are outside the dispatch-queue invariant.
- BatchWorkers.BatchWorker.ProcessAvailableBatch: the records are ids, and which claimed ones still wait is a parameter.
- SchedulerChain.TickOverwritesOnlyItsRead: the scheduler lock is assumed held by at most one tick or upsert, and the deletion of an entry read parked may hit one a completion has advanced meanwhile.
- SchedulerChain.NoAdvanceUnderATick: the same deletion is exempt, because the source deletes without comparing.
- TestWorkers.BurstsExactly: attempts within one duration of the epoch are left to TestWorkers.AtMostTwiceMax, since the first window counts from 0.
- DagSafety.NothingStuck: jobs removed during the submission, removal on completion and failing jobs are not modelled, so the branches for missing children are left out.
- FlowRelease.NothingStuck: jobs removed from a flow and children added to a running job are not modelled.
- Years 0 to 99, which Date.UTC maps to the twentieth century, are ordinary years here.
- Real timezone data; a zone is any function obeying the stated rules.
- Job ids, payload limits, option validation, budgets, ordering keys, time-to-live and serialization.
- Deduplication, retention policies, metrics, events, vector search, proxies and workflow sugar.
- Connections, reconnection, polling, pipelining and heartbeats.
- Ordering groups, token buckets, stalled-job reclaim and list-active counters of the server library.
- Randomised backoff and floating-point score encoding.
- Number precision: JavaScript numbers are integers of any size here.
