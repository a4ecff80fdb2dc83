/** The next occurrence of a pattern in a timezone, across DST changes. */
module CronTz {
  import opened Sequences
  import opened Calendar
  import opened CronDays
  import opened CronWalker
  import opened Timezone
  import opened Wrappers

  /** The next run, or one of the two ways the search throws. */
  datatype NextRun = At(instant: int) | NothingInHorizon | GaveUp

  /** `t` is a whole second whose wall clock matches the pattern. */
  predicate MatchesAt(cron: CronPattern, zone: Zone, t: int) {
    t % 1000 == 0 && Matches(cron, TzParts(zone, t))
  }

  /** No whole second in (after, upTo] has a matching wall clock. */
  ghost predicate QuietUpTo(cron: CronPattern, zone: Zone, after: int, upTo: int) {
    forall t :: after < t <= upTo ==> !MatchesAt(cron, zone, t)
  }

  function FirstAfter(instants: seq<int>, after: int): (r: Option<int>)
    ensures r.Some? ==> r.value in instants && r.value > after
    ensures r.None? ==> forall t :: t in instants ==> t <= after
  {
    if instants == [] then None
    else
      assert forall t :: t in instants ==> t == instants[0] || t in instants[1..];
      if instants[0] > after then Some(instants[0]) else FirstAfter(instants[1..], after)
  }

  /** Wildcard patterns use every instant of a wall time and skip missing ones. */
  function ResolveWildcard(zone: Zone, after: int): Wall -> Option<int> {
    w => FirstAfter(TzWallToInstants(zone, w), after)
  }

  /** Fixed-time patterns use the first instant of a wall time, or the end of the gap that skips it. */
  function ResolveFixed(zone: Zone, after: int): Wall -> Option<int> {
    w => FirstAfter([Occurrence(zone, w)], after)
  }

  function Resolver(cron: CronPattern, zone: Zone, after: int): Wall -> Option<int> {
    if cron.wildcardTime then ResolveWildcard(zone, after) else ResolveFixed(zone, after)
  }

  /** One second after `after` on the wall clock: where the walk starts. */
  function TzStart(zone: Zone, after: int): (start: Wall)
    ensures ValidWall(start)
  {
    PlusOneSecond(TzParts(zone, after))
  }

  /** End of the instant scan: how long the clock, about to be set back, repeats itself after `after`. */
  function ScanEnd(zone: Zone, after: int): int {
    after + (TzOffsetMs(zone, after) - TzOffsetMs(zone, after + DST_WINDOW_MS))
  }

  // ---- The scan across a fall-back ----

  /** Without a seconds field only whole minutes can match. */
  lemma OnlyWholeMinutes(cron: CronPattern, zone: Zone, t: int)
    requires WellFormed(cron) && !cron.hasSeconds && t % MINUTE_MS != 0
    ensures !MatchesAt(cron, zone, t)
  {
    if t % 1000 == 0 {
      var p := TzParts(zone, t);
      SecondOfParts(zone, t, p);
    }
  }

  lemma SecondOfParts(zone: Zone, t: int, p: Wall)
    requires ValidWall(p) && Seconds(p) == Clock(zone, t) / 1000 && t % 1000 == 0 && t % MINUTE_MS != 0
    ensures p.second != 0
  {
    hide DayNumber;
    var d := DayNumber(p.year, p.month, p.day);
    var k := zone(t) / MINUTE_MS;
    var j := t / 1000;
    assert Clock(zone, t) == 1000 * (60 * k + j);
    assert j == 60 * (1440 * d + 60 * p.hour + p.minute - k) + p.second;
    assert p.second == 0 ==> t == MINUTE_MS * (1440 * d + 60 * p.hour + p.minute - k);
  }

  /** Steps over the instants up to `scanEnd`: whole seconds, or whole minutes if the pattern has no seconds. */
  method ScanInstants(cron: CronPattern, zone: Zone, after: int, scanEnd: int) returns (r: Option<int>)
    requires WellFormed(cron)
    ensures r.Some? ==> after < r.value <= scanEnd && MatchesAt(cron, zone, r.value)
                        && QuietUpTo(cron, zone, after, r.value - 1)
    ensures r.None? ==> QuietUpTo(cron, zone, after, scanEnd)
  {
    hide QuietUpTo, MatchesAt;
    var stepMs := if cron.hasSeconds then 1000 else MINUTE_MS;
    var t := after / stepMs * stepMs + stepMs;
    QuietStart(cron, zone, after, t, stepMs);
    while t <= scanEnd
      invariant t % stepMs == 0 && t > after
      invariant QuietUpTo(cron, zone, after, t - 1)
    {
      if MatchesAt(cron, zone, t) {
        return Some(t);
      }
      QuietStep(cron, zone, after, t, stepMs);
      t := t + stepMs;
    }
    QuietShrinks(cron, zone, after, scanEnd, t - 1);
    return None;
  }

  lemma QuietShrinks(cron: CronPattern, zone: Zone, after: int, upTo: int, further: int)
    requires QuietUpTo(cron, zone, after, further) && upTo <= further
    ensures QuietUpTo(cron, zone, after, upTo)
  {}

  lemma BetweenSteps(cron: CronPattern, zone: Zone, t: int, stepMs: int)
    requires WellFormed(cron) && stepMs == (if cron.hasSeconds then 1000 else MINUTE_MS) && t % stepMs != 0
    ensures !MatchesAt(cron, zone, t)
  {
    hide Matches, TzParts;
    if !cron.hasSeconds { OnlyWholeMinutes(cron, zone, t); }
  }

  /** Strictly between two multiples of the step there is none. */
  lemma OffGrid(t: int, u: int, stepMs: int)
    requires (stepMs == 1000 || stepMs == MINUTE_MS) && t % stepMs == 0
    requires t - stepMs < u < t || t < u < t + stepMs
    ensures u % stepMs != 0
  {}

  lemma NextOnGrid(t: int, stepMs: int)
    requires (stepMs == 1000 || stepMs == MINUTE_MS) && t % stepMs == 0
    ensures (t + stepMs) % stepMs == 0
  {}

  lemma FirstOnGrid(after: int, t: int, stepMs: int)
    requires (stepMs == 1000 || stepMs == MINUTE_MS) && t == after / stepMs * stepMs + stepMs
    ensures t % stepMs == 0 && t - stepMs <= after < t
  {}

  lemma QuietStart(cron: CronPattern, zone: Zone, after: int, t: int, stepMs: int)
    requires WellFormed(cron) && stepMs == (if cron.hasSeconds then 1000 else MINUTE_MS)
    requires t == after / stepMs * stepMs + stepMs
    ensures t % stepMs == 0 && t > after && QuietUpTo(cron, zone, after, t - 1)
  {
    hide MatchesAt;
    FirstOnGrid(after, t, stepMs);
    forall u | after < u <= t - 1
      ensures !MatchesAt(cron, zone, u)
    {
      OffGrid(t, u, stepMs);
      BetweenSteps(cron, zone, u, stepMs);
    }
  }

  lemma QuietStep(cron: CronPattern, zone: Zone, after: int, t: int, stepMs: int)
    requires WellFormed(cron) && stepMs == (if cron.hasSeconds then 1000 else MINUTE_MS)
    requires t % stepMs == 0 && QuietUpTo(cron, zone, after, t - 1) && !MatchesAt(cron, zone, t)
    ensures (t + stepMs) % stepMs == 0 && QuietUpTo(cron, zone, after, t + stepMs - 1)
  {
    hide MatchesAt;
    NextOnGrid(t, stepMs);
    forall u | t < u <= t + stepMs - 1
      ensures !MatchesAt(cron, zone, u)
    {
      OffGrid(t, u, stepMs);
      BetweenSteps(cron, zone, u, stepMs);
    }
  }

  // ---- The walk starts right after the current wall time ----

  /** A valid wall time lies before the start of the walk just when the clock has already read it at `after`. */
  lemma StartIsNext(zone: Zone, after: int, w: Wall)
    requires ValidWall(w)
    ensures Before(w, TzStart(zone, after)) <==> Naive(w) <= Clock(zone, after)
  {
    BeforeIsEarlier(w, TzStart(zone, after));
  }

  lemma {:induction false} FirstAfterIsLeast(s: seq<int>, after: int)
    requires Ascending(s)
    ensures forall t :: t in s && t > after ==> FirstAfter(s, after).Some? && FirstAfter(s, after).value <= t
  {
    if s != [] {
      assert s == [s[0]] + s[1..];
      FirstAfterIsLeast(s[1..], after);
    }
  }

  // ---- Fixed-time patterns ----

  /** The run of a fixed-time pattern: the least occurrence of a matching wall time after `after`. */
  ghost predicate LeastOccurrence(cron: CronPattern, zone: Zone, after: int, t: int) {
    && t > after
    && (exists w :: ValidWall(w) && Matches(cron, w) && Occurrence(zone, w) == t)
    && (forall w :: ValidWall(w) && Matches(cron, w) && Occurrence(zone, w) > after ==> t <= Occurrence(zone, w))
  }

  /** Wall times the clock had read by `after` occurred by then. */
  lemma OccurredAlready(zone: Zone, after: int, w: Wall)
    requires ValidWall(w) && Before(w, TzStart(zone, after))
    ensures Occurrence(zone, w) <= after
  {
    hide Occurrence, Naive, TzStart;
    StartIsNext(zone, after, w);
    OccurrenceIsFirstReach(zone, w);
  }

  lemma FixedFound(cron: CronPattern, zone: Zone, after: int, at: Wall, t: int)
    requires LeastHit(cron, ResolveFixed(zone, after), TzStart(zone, after), at)
    requires ResolveFixed(zone, after)(at) == Some(t)
    ensures LeastOccurrence(cron, zone, after, t)
  {
    hide Occurrence, Matches, TzStart, Seconds;
    assert t == Occurrence(zone, at) && t > after;
    forall w | ValidWall(w) && Matches(cron, w) && Occurrence(zone, w) > after
      ensures t <= Occurrence(zone, w)
    {
      FixedNotSooner(cron, zone, after, at, w);
    }
  }

  lemma FixedNotSooner(cron: CronPattern, zone: Zone, after: int, at: Wall, w: Wall)
    requires LeastHit(cron, ResolveFixed(zone, after), TzStart(zone, after), at)
    requires ValidWall(w) && Matches(cron, w) && Occurrence(zone, w) > after
    ensures Occurrence(zone, at) <= Occurrence(zone, w)
  {
    hide Occurrence, Matches, TzStart, Seconds;
    if Before(w, TzStart(zone, after)) {
      OccurredAlready(zone, after, w);
    } else {
      assert Hit(cron, ResolveFixed(zone, after), w);
      BeforeIsEarlier(w, at);
      OccurrenceMonotone(zone, at, w);
    }
  }

  /** The search of a fixed-time pattern finds nothing only if nothing occurs in the horizon. */
  lemma FixedNothing(cron: CronPattern, zone: Zone, after: int, w: Wall)
    requires NoHitInHorizon(cron, ResolveFixed(zone, after), TzStart(zone, after))
    requires ValidWall(w) && Matches(cron, w) && w.year <= TzStart(zone, after).year + MAX_SEARCH_YEARS
    ensures Occurrence(zone, w) <= after
  {
    hide Occurrence, Matches, TzStart, Seconds;
    if Before(w, TzStart(zone, after)) {
      OccurredAlready(zone, after, w);
    } else {
      assert !Hit(cron, ResolveFixed(zone, after), w);
    }
  }

  // ---- Wildcard patterns ----

  /** The run of a wildcard pattern: the least whole second after `after` whose wall clock matches. */
  ghost predicate LeastMatch(cron: CronPattern, zone: Zone, after: int, t: int) {
    t > after && MatchesAt(cron, zone, t) && QuietUpTo(cron, zone, after, t - 1)
  }

  /** `r` is the first instant after `after` that shows `w`, if there is one. */
  ghost predicate FirstShow(zone: Zone, after: int, w: Wall, r: Option<int>) {
    && (r.Some? ==> r.value > after && Shows(zone, r.value, w))
    && (forall t :: t > after && Shows(zone, t, w) ==> r.Some? && r.value <= t)
  }

  lemma WildcardResolves(zone: Zone, after: int, w: Wall)
    ensures FirstShow(zone, after, w, ResolveWildcard(zone, after)(w))
  {
    hide TzWallToInstants, Naive;
    InstantsExact(zone, w);
    FirstAfterIsLeast(TzWallToInstants(zone, w), after);
  }

  lemma ClockInSeconds(zone: Zone, t: int) returns (k: int)
    ensures Clock(zone, t) == t + 1000 * k
  {
    k := 60 * (zone(t) / MINUTE_MS);
  }

  /** A whole second shows its own wall-clock parts. */
  lemma ShowsParts(zone: Zone, t: int)
    requires t % 1000 == 0
    ensures Shows(zone, t, TzParts(zone, t))
  {
    hide Seconds, TzParts, ZoneRules;
    var k := ClockInSeconds(zone, t);
    Thousands(Clock(zone, t), t / 1000 + k);
  }

  lemma Thousands(x: int, q: int)
    requires x == 1000 * q
    ensures x / 1000 == q && x % 1000 == 0
  {}

  /** An instant that shows a valid wall time is a whole second with those parts. */
  lemma PartsOfShown(zone: Zone, t: int, w: Wall)
    requires ValidWall(w) && Shows(zone, t, w)
    ensures t % 1000 == 0 && TzParts(zone, t) == w
  {
    hide Seconds, TzParts, ZoneRules;
    var k := ClockInSeconds(zone, t);
    Thousands(t, Seconds(w) - k);
    Thousands(Clock(zone, t), Seconds(w));
    SameSecond(TzParts(zone, t), w);
  }

  lemma SameSecond(a: Wall, b: Wall)
    requires ValidWall(a) && ValidWall(b) && Seconds(a) == Seconds(b)
    ensures a == b
  {
    BeforeIsEarlier(a, b);
    BeforeIsEarlier(b, a);
  }

  /** After `after` the clock is set back past the current reading only inside the scanned stretch. */
  lemma SetBackIsScanned(zone: Zone, after: int, t: int)
    requires t > after && Clock(zone, t) <= Clock(zone, after)
    ensures t <= ScanEnd(zone, after)
  {
    assert InOrder(after, t, t);
    assert InOrder(after, t, after + DST_WINDOW_MS);
  }

  /** Walking wall times in order finds the least instant: if an earlier instant showed a later wall time,
      the clock was set back in between and would already have shown the found time.
  */
  lemma WallOrderIsInstantOrder(zone: Zone, after: int, at: Wall, t: int, u: int)
    requires ResolveWildcard(zone, after)(at) == Some(t)
    requires Naive(at) > Clock(zone, after)
    requires after < u < t
    ensures Clock(zone, u) < Naive(at)
  {
    hide Naive, ResolveWildcard;
    WildcardResolves(zone, after, at);
    if Clock(zone, u) >= Naive(at) {
      var v := EarlierShow(zone, at, u, t);
      if v <= after { SameOffsetBetween(zone, v, after, u); }
    }
  }

  lemma SameOffsetBetween(zone: Zone, a: int, b: int, c: int)
    requires a <= b <= c <= a + DAY_MS && zone(a) == zone(c)
    ensures zone(b) == zone(a)
  {
    assert InOrder(a, b, c);
  }

  lemma WildcardFound(cron: CronPattern, zone: Zone, after: int, at: Wall, t: int)
    requires LeastHit(cron, ResolveWildcard(zone, after), TzStart(zone, after), at)
    requires ResolveWildcard(zone, after)(at) == Some(t)
    requires QuietUpTo(cron, zone, after, ScanEnd(zone, after))
    ensures LeastMatch(cron, zone, after, t)
  {
    hide Naive, ResolveWildcard, Matches, TzStart, QuietUpTo, ScanEnd, TzParts;
    WildcardResolves(zone, after, at);
    PartsOfShown(zone, t, at);
    forall u | after < u <= t - 1
      ensures !MatchesAt(cron, zone, u)
    {
      WildcardNotSooner(cron, zone, after, at, t, u);
    }
    QuietIf(cron, zone, after, t - 1);
  }

  lemma QuietIf(cron: CronPattern, zone: Zone, after: int, upTo: int)
    requires forall u :: after < u <= upTo ==> !MatchesAt(cron, zone, u)
    ensures QuietUpTo(cron, zone, after, upTo)
  {}

  lemma QuietAt(cron: CronPattern, zone: Zone, after: int, upTo: int, u: int)
    requires QuietUpTo(cron, zone, after, upTo) && after < u <= upTo
    ensures !MatchesAt(cron, zone, u)
  {}

  lemma WildcardNotSooner(cron: CronPattern, zone: Zone, after: int, at: Wall, t: int, u: int)
    requires LeastHit(cron, ResolveWildcard(zone, after), TzStart(zone, after), at)
    requires ResolveWildcard(zone, after)(at) == Some(t)
    requires QuietUpTo(cron, zone, after, ScanEnd(zone, after))
    requires after < u < t
    ensures !MatchesAt(cron, zone, u)
  {
    hide Naive, ResolveWildcard, Matches, TzStart, QuietUpTo, ScanEnd, TzParts;
    if u % 1000 == 0 {
      var w := TzParts(zone, u);
      ShowsParts(zone, u);
      if Clock(zone, u) <= Clock(zone, after) {
        SetBackIsScanned(zone, after, u);
        QuietAt(cron, zone, after, ScanEnd(zone, after), u);
      } else {
        StartIsNext(zone, after, w);
        StartIsNext(zone, after, at);
        WallOrderIsInstantOrder(zone, after, at, t, u);
        BeforeByNaive(w, at);
        WildcardResolves(zone, after, w);
        assert !Hit(cron, ResolveWildcard(zone, after), w);
      }
    }
  }

  lemma BeforeByNaive(a: Wall, b: Wall)
    requires ValidWall(a) && ValidWall(b)
    ensures Before(a, b) <==> Naive(a) < Naive(b)
  {
    hide Seconds;
    BeforeIsEarlier(a, b);
  }

  /** The search of a wildcard pattern finds nothing only if nothing matches in the horizon. */
  lemma WildcardNothing(cron: CronPattern, zone: Zone, after: int, u: int)
    requires NoHitInHorizon(cron, ResolveWildcard(zone, after), TzStart(zone, after))
    requires QuietUpTo(cron, zone, after, ScanEnd(zone, after))
    requires u > after && TzParts(zone, u).year <= TzStart(zone, after).year + MAX_SEARCH_YEARS
    ensures !MatchesAt(cron, zone, u)
  {
    hide Naive, ResolveWildcard, Matches, TzStart, QuietUpTo, ScanEnd, TzParts;
    if u % 1000 == 0 {
      var w := TzParts(zone, u);
      ShowsParts(zone, u);
      if Clock(zone, u) <= Clock(zone, after) {
        SetBackIsScanned(zone, after, u);
        QuietAt(cron, zone, after, ScanEnd(zone, after), u);
      } else {
        StartIsNext(zone, after, w);
        WildcardResolves(zone, after, w);
        assert !Hit(cron, ResolveWildcard(zone, after), w);
      }
    }
  }

  // ---- When the walk may give up ----

  lemma {:induction false} SecondsBound(s: set<Wall>, lo: int, n: nat)
    requires forall w :: w in s ==> ValidWall(w) && lo < Seconds(w) <= lo + n
    ensures |s| <= n
    decreases n
  {
    hide Seconds;
    if n == 0 {
      assert forall w :: w !in s;
      assert s == {};
    } else if w :| w in s && Seconds(w) == lo + n {
      forall v | v in s - {w} ensures Seconds(v) <= lo + n - 1 {
        if Seconds(v) == Seconds(w) { SameSecond(v, w); }
      }
      SecondsBound(s - {w}, lo, n - 1);
      assert |s| == |s - {w}| + 1;
    } else {
      SecondsBound(s, lo, n - 1);
    }
  }

  /** Every matching time that the search turned down was either skipped by the clock or shown before
      the clock was last set back, less than the DST window ago.
  */
  lemma TurnedDown(cron: CronPattern, zone: Zone, after: int, w: Wall)
    requires Rejected(cron, Resolver(cron, zone, after), TzStart(zone, after), w)
    requires !cron.wildcardTime || !Skipped(zone, w)
    ensures Clock(zone, after) < Naive(w) <= Clock(zone, after) + DST_WINDOW_MS
  {
    hide Naive, Occurrence, ResolveWildcard, Matches, TzStart;
    StartIsNext(zone, after, w);
    var t := Occurrence(zone, w);
    OccurrenceIsFirstReach(zone, w);
    if cron.wildcardTime {
      WildcardResolves(zone, after, w);
      assert Shows(zone, t, w);
    } else {
      assert t in [Occurrence(zone, w)];
    }
    assert t <= after;
    assert InOrder(t, after, after);
  }

  ghost predicate AllRejected(cron: CronPattern, zone: Zone, after: int, s: set<Wall>) {
    forall w :: w in s ==> Rejected(cron, Resolver(cron, zone, after), TzStart(zone, after), w)
  }

  lemma TurnedDownCount(cron: CronPattern, zone: Zone, after: int, s: set<Wall>)
    requires AllRejected(cron, zone, after, s)
    requires forall w :: w in s ==> !cron.wildcardTime || !Skipped(zone, w)
    ensures |s| <= DST_WINDOW_MS / 1000
  {
    hide Seconds, Resolver, TzStart;
    var lo := Clock(zone, after) / 1000;
    forall w | w in s
      ensures ValidWall(w) && lo < Seconds(w) <= lo + DST_WINDOW_MS / 1000
    {
      TurnedDown(cron, zone, after, w);
    }
    SecondsBound(s, lo, DST_WINDOW_MS / 1000);
  }

  /** Distinct wall times of the horizon that match the pattern but are skipped by the clock, and those of
      them that end their minute.
  */
  ghost predicate SkippedTimes(cron: CronPattern, zone: Zone, start: Wall, skipped: set<Wall>, minuteEnds: set<Wall>) {
    && (forall w :: w in skipped ==> ValidWall(w) && Matches(cron, w) && Skipped(zone, w)
                                     && !Before(w, start) && w.year <= start.year + MAX_SEARCH_YEARS)
    && minuteEnds <= skipped && (forall w :: w in minuteEnds ==> LastSecond(cron, w.second))
  }

  ghost predicate ManySkipped(cron: CronPattern, zone: Zone, start: Wall) {
    exists skipped: set<Wall>, minuteEnds: set<Wall> ::
      SkippedTimes(cron, zone, start, skipped, minuteEnds) && |skipped| + 4 * |minuteEnds| >= 132_000
  }

  /** All but a few thousand of the times turned down were skipped by the clock. */
  lemma MostAreSkipped(cron: CronPattern, zone: Zone, after: int, rejected: set<Wall>, skipped: set<Wall>)
    requires AllRejected(cron, zone, after, rejected)
    requires skipped == set w | w in rejected && cron.wildcardTime && Skipped(zone, w)
    ensures |rejected| <= |skipped| + DST_WINDOW_MS / 1000
  {
    hide Rejected, Resolver, TzStart, Skipped;
    TurnedDownCount(cron, zone, after, rejected - skipped);
    assert rejected == skipped + (rejected - skipped);
  }

  lemma GivesUpOnGapsOnly(cron: CronPattern, zone: Zone, after: int)
    requires ManyRejections(cron, Resolver(cron, zone, after), TzStart(zone, after))
    ensures cron.wildcardTime && ManySkipped(cron, zone, TzStart(zone, after))
  {
    hide Matches, Resolver, TzStart, Seconds, Skipped;
    var start := TzStart(zone, after);
    var rejected: set<Wall>, minuteEnds: set<Wall> :|
      RejectedTimes(cron, Resolver(cron, zone, after), start, rejected, minuteEnds)
      && |rejected| + 4 * |minuteEnds| >= 186_000;
    var skipped := set w | w in rejected && cron.wildcardTime && Skipped(zone, w);
    var skippedEnds := set w | w in minuteEnds && cron.wildcardTime && Skipped(zone, w);
    MostAreSkipped(cron, zone, after, rejected, skipped);
    MostAreSkipped(cron, zone, after, minuteEnds, skippedEnds);
    assert |skipped| + 4 * |skippedEnds| >= 132_000;
    assert SkippedTimes(cron, zone, start, skipped, skippedEnds);
    if !cron.wildcardTime {
      NoneSkipped(skipped);
      NoneSkipped(skippedEnds);
    }
  }

  lemma NoneSkipped(s: set<Wall>)
    requires forall w :: w !in s
    ensures |s| == 0
  {
    assert s == {};
  }

  // ---- When the walk must give up ----

  /** No instant is found by scanning, and the walk takes more rounds than its guard allows. */
  ghost predicate TakesTooLong(cron: CronPattern, zone: Zone, after: int)
    requires WellFormed(cron)
  {
    && (cron.wildcardTime ==> QuietUpTo(cron, zone, after, ScanEnd(zone, after)))
    && WalksTooLong(cron, Resolver(cron, zone, after), TzStart(zone, after))
  }

  /** Wall times of the horizon that match but are skipped, all of them before any time that fires. */
  ghost predicate SkippedFirst(cron: CronPattern, zone: Zone, after: int, s: set<Wall>) {
    && SkippedTimes(cron, zone, TzStart(zone, after), s, {})
    && forall w, t :: w in s && t > after && MatchesAt(cron, zone, t) ==> Before(w, TzParts(zone, t))
  }

  /** The pattern matches more skipped wall times than the walk has steps before it fires. */
  ghost predicate TooManySkipped(cron: CronPattern, zone: Zone, after: int) {
    && cron.wildcardTime && QuietUpTo(cron, zone, after, ScanEnd(zone, after))
    && exists s: set<Wall> :: |s| > MAX_SEARCH_STEPS && SkippedFirst(cron, zone, after, s)
  }

  lemma SkippedIsRejected(cron: CronPattern, zone: Zone, after: int, s: set<Wall>, w: Wall)
    requires cron.wildcardTime && SkippedFirst(cron, zone, after, s) && w in s
    ensures Rejected(cron, Resolver(cron, zone, after), TzStart(zone, after), w)
  {
    hide Matches, TzStart, ResolveWildcard, MatchesAt;
    WildcardResolves(zone, after, w);
  }

  /** With at most as many rejections as steps before `at`, few skipped times lie before `at`. */
  lemma FewAreSkipped(cron: CronPattern, zone: Zone, after: int, s: set<Wall>, at: Wall)
    requires cron.wildcardTime && SkippedFirst(cron, zone, after, s) && forall w :: w in s ==> Before(w, at)
    requires FewRejections(cron, Resolver(cron, zone, after), TzStart(zone, after), at, MAX_SEARCH_STEPS)
    ensures |s| <= MAX_SEARCH_STEPS
  {
    hide Rejected, TzStart, Resolver, SkippedFirst;
    forall w | w in s ensures Rejected(cron, Resolver(cron, zone, after), TzStart(zone, after), w) {
      SkippedIsRejected(cron, zone, after, s, w);
    }
  }

  lemma FoundSoonEnough(cron: CronPattern, zone: Zone, after: int, at: Wall, t: int)
    requires ValidWall(at) && Matches(cron, at) && Resolver(cron, zone, after)(at) == Some(t)
    requires FewRejections(cron, Resolver(cron, zone, after), TzStart(zone, after), at, MAX_SEARCH_STEPS)
    ensures !TooManySkipped(cron, zone, after)
  {
    hide FewRejections, TzStart, QuietUpTo, Matches, TzParts, ResolveWildcard, ResolveFixed;
    if cron.wildcardTime {
      WildcardResolves(zone, after, at);
      PartsOfShown(zone, t, at);
      forall s: set<Wall> | SkippedFirst(cron, zone, after, s) ensures |s| <= MAX_SEARCH_STEPS {
        forall w | w in s ensures Before(w, at) { assert MatchesAt(cron, zone, t); }
        FewAreSkipped(cron, zone, after, s, at);
      }
    }
  }

  lemma HorizonSoonEnough(cron: CronPattern, zone: Zone, after: int)
    requires forall at :: FewRejections(cron, Resolver(cron, zone, after), TzStart(zone, after), at, MAX_SEARCH_STEPS)
    ensures !TooManySkipped(cron, zone, after)
  {
    hide FewRejections, TzStart, QuietUpTo, Matches, MatchesAt, TzParts, Resolver;
    var end := Wall(TzStart(zone, after).year + MAX_SEARCH_YEARS + 1, 1, 1, 0, 0, 0);
    if cron.wildcardTime {
      forall s: set<Wall> | SkippedFirst(cron, zone, after, s) ensures |s| <= MAX_SEARCH_STEPS {
        FewAreSkipped(cron, zone, after, s, end);
      }
    }
  }

  lemma ScannedHit(cron: CronPattern, zone: Zone, after: int, t: int)
    requires WellFormed(cron) && cron.wildcardTime && after < t <= ScanEnd(zone, after) && MatchesAt(cron, zone, t)
    ensures !TooManySkipped(cron, zone, after) && !TakesTooLong(cron, zone, after)
  {
    hide MatchesAt, ScanEnd;
  }

  // ---- The search ----

  /** The pattern fires at `t`: a wildcard pattern at every matching second, a fixed-time pattern where a
      matching wall time occurs.
  */
  ghost predicate Fires(cron: CronPattern, zone: Zone, t: int) {
    if cron.wildcardTime then MatchesAt(cron, zone, t)
    else exists w :: ValidWall(w) && Matches(cron, w) && Occurrence(zone, w) == t
  }

  /** `t` is the first run after `after`. */
  ghost predicate NextFire(cron: CronPattern, zone: Zone, after: int, t: int) {
    t > after && Fires(cron, zone, t) && forall u :: after < u < t ==> !Fires(cron, zone, u)
  }

  /** Nothing fires after `after` on a wall time of the years searched. */
  ghost predicate NoFireInHorizon(cron: CronPattern, zone: Zone, after: int) {
    var lastYear := TzStart(zone, after).year + MAX_SEARCH_YEARS;
    if cron.wildcardTime then
      forall t :: t > after && TzParts(zone, t).year <= lastYear ==> !MatchesAt(cron, zone, t)
    else
      forall w :: ValidWall(w) && Matches(cron, w) && w.year <= lastYear ==> Occurrence(zone, w) <= after
  }

  lemma FoundIsNextFire(cron: CronPattern, zone: Zone, after: int, at: Wall, t: int)
    requires LeastHit(cron, Resolver(cron, zone, after), TzStart(zone, after), at)
    requires Resolver(cron, zone, after)(at) == Some(t)
    requires cron.wildcardTime ==> QuietUpTo(cron, zone, after, ScanEnd(zone, after))
    ensures NextFire(cron, zone, after, t)
  {
    hide Matches, MatchesAt, TzStart, ScanEnd, Occurrence, ResolveWildcard, ResolveFixed;
    if cron.wildcardTime {
      WildcardFound(cron, zone, after, at, t);
    } else {
      FixedFound(cron, zone, after, at, t);
    }
  }

  lemma HorizonIsEmpty(cron: CronPattern, zone: Zone, after: int)
    requires NoHitInHorizon(cron, Resolver(cron, zone, after), TzStart(zone, after))
    requires cron.wildcardTime ==> QuietUpTo(cron, zone, after, ScanEnd(zone, after))
    ensures NoFireInHorizon(cron, zone, after)
  {
    hide Matches, MatchesAt, TzStart, ScanEnd, Occurrence, ResolveWildcard, ResolveFixed, TzParts, QuietUpTo;
    var lastYear := TzStart(zone, after).year + MAX_SEARCH_YEARS;
    if cron.wildcardTime {
      forall t | t > after && TzParts(zone, t).year <= lastYear ensures !MatchesAt(cron, zone, t) {
        WildcardNothing(cron, zone, after, t);
      }
    } else {
      forall w | ValidWall(w) && Matches(cron, w) && w.year <= lastYear ensures Occurrence(zone, w) <= after {
        FixedNothing(cron, zone, after, w);
      }
    }
  }

  /** The next run of a pattern in a timezone. */
  method NextCronOccurrenceTz(cron: CronPattern, afterMs: int, zone: Zone) returns (r: NextRun)
    requires WellFormed(cron)
    ensures r.At? ==> NextFire(cron, zone, afterMs, r.instant)
    ensures r.NothingInHorizon? ==> NoFireInHorizon(cron, zone, afterMs)
    ensures r.GaveUp? ==> cron.wildcardTime && ManySkipped(cron, zone, TzStart(zone, afterMs))
    ensures r.GaveUp? <==> TakesTooLong(cron, zone, afterMs)
    ensures TooManySkipped(cron, zone, afterMs) ==> r.GaveUp?
  {
    hide Matches, MatchesAt, TzStart, Occurrence, Resolver, TzOffsetMs, TooManySkipped, FewRejections, WalksTooLong;
    if cron.wildcardTime {
      var offsetNow := TzOffsetMs(zone, afterMs);
      var offsetLater := TzOffsetMs(zone, afterMs + DST_WINDOW_MS);
      if offsetLater < offsetNow {
        var repeatMs := offsetNow - offsetLater;
        var hit := ScanInstants(cron, zone, afterMs, afterMs + repeatMs);
        if hit.Some? {
          ScannedHit(cron, zone, afterMs, hit.value);
          return At(hit.value);
        }
      }
      assert QuietUpTo(cron, zone, afterMs, ScanEnd(zone, afterMs));
    }
    var start := TzStart(zone, afterMs);
    var resolve := Resolver(cron, zone, afterMs);
    var outcome := SearchCronWall(cron, start, resolve);
    match outcome {
      case Found(at, instant) =>
        FoundIsNextFire(cron, zone, afterMs, at, instant);
        FoundSoonEnough(cron, zone, afterMs, at, instant);
        r := At(instant);
      case HorizonReached =>
        HorizonIsEmpty(cron, zone, afterMs);
        HorizonSoonEnough(cron, zone, afterMs);
        r := NothingInHorizon;
      case StepsExhausted =>
        GivesUpOnGapsOnly(cron, zone, afterMs);
        r := GaveUp;
    }
  }

  // ---- Runs of the schedule ----

  /** Each run is searched from the one before it. */
  ghost predicate IsRun(cron: CronPattern, zone: Zone, after: int, runs: seq<int>)
    decreases |runs|
  {
    runs == [] || (NextFire(cron, zone, after, runs[0]) && IsRun(cron, zone, runs[0], runs[1..]))
  }

  /** Iterating the search enumerates every firing instant once, in order: none is missed, none repeats. */
  lemma {:induction false} RunEnumeratesFires(cron: CronPattern, zone: Zone, after: int, runs: seq<int>)
    requires IsRun(cron, zone, after, runs) && runs != []
    ensures Ascending(runs)
    ensures forall t :: t in runs <==> after < t <= runs[|runs| - 1] && Fires(cron, zone, t)
    decreases |runs|
  {
    hide Fires;
    var rest := runs[1..];
    assert runs == [runs[0]] + rest;
    if rest != [] {
      RunEnumeratesFires(cron, zone, runs[0], rest);
      assert rest[|rest| - 1] == runs[|runs| - 1];
      assert rest[|rest| - 1] in rest;
      assert forall i :: 0 <= i < |rest| ==> rest[i] in rest;
    }
  }

  /** A fixed-time pattern fires once for each matching wall time: at the instant where the clock first
      reads it, or the end of the gap that skips it, and at no other.
  */
  lemma FixedFiresAtFirstReach(cron: CronPattern, zone: Zone, t: int)
    requires !cron.wildcardTime
    ensures Fires(cron, zone, t) <==> exists w :: ValidWall(w) && Matches(cron, w) && FirstReach(zone, Naive(w), t)
  {
    hide Matches, Occurrence, Naive;
    forall w: Wall
      ensures FirstReach(zone, Naive(w), t) <==> Occurrence(zone, w) == t
    {
      OccurrenceIsFirstReach(zone, w);
    }
  }
}
