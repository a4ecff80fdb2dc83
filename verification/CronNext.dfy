/** The next occurrence from pattern text, and when the search in UTC always succeeds. */
module CronNext {
  import opened Wrappers
  import opened Calendar
  import opened CronText
  import opened CronDays
  import opened CronWalker
  import opened CronUtc
  import opened Timezone
  import opened CronTz
  import opened CronGaps
  import opened CronHorizon
  import opened CronLeapDays
  import CronPatterns

  /** What a search in UTC may answer. */
  ghost predicate UtcOutcome(cron: CronPattern, afterMs: int, r: NextRun) {
    match r
    case At(t) => t > afterMs && MatchesUtc(cron, t) && forall s :: afterMs < s < t ==> !MatchesUtc(cron, s)
    case NothingInHorizon => forall w :: InHorizon(afterMs, w) ==> !Matches(cron, w)
    case GaveUp => false
  }

  /** What a search in a timezone may answer: it gives up exactly where the walk takes too many rounds, which is never
      the case where little time is skipped, and always where too much is.
  */
  ghost predicate TzOutcome(cron: CronPattern, zone: Zone, afterMs: int, r: NextRun)
    requires WellFormed(cron)
  {
    && (match r
        case At(t) => NextFire(cron, zone, afterMs, t)
        case NothingInHorizon => NoFireInHorizon(cron, zone, afterMs)
        case GaveUp => cron.wildcardTime && ManySkipped(cron, zone, TzStart(zone, afterMs)) && !LittleSkipped(zone, afterMs))
    && (r.GaveUp? <==> TakesTooLong(cron, zone, afterMs)) && (TooManySkipped(cron, zone, afterMs) ==> r.GaveUp?)
  }

  ghost predicate Outcome(cron: CronPattern, tz: Option<Zone>, afterMs: int, r: NextRun)
    requires WellFormed(cron)
  {
    match tz
    case None => UtcOutcome(cron, afterMs, r)
    case Some(zone) => TzOutcome(cron, zone, afterMs, r)
  }

  /** Parses the pattern and searches: an error exactly for a malformed pattern, otherwise the answer for what the text says. */
  method NextCronOccurrence(pattern: string, afterMs: int, tz: Option<Zone>) returns (r: Result<NextRun, string>)
    ensures r.Err? <==> !CronPatterns.AcceptedPattern(Words(pattern))
    ensures r.Ok? ==> exists cron :: WellFormed(cron) && CronPatterns.PatternMeans(Words(pattern), cron) && Outcome(cron, tz, afterMs, r.value)
  {
    hide CronPatterns.AcceptedPattern, CronPatterns.PatternMeans, WellFormed, Matches, MatchesUtc, InHorizon, NextFire, NoFireInHorizon, ManySkipped,
      LittleSkipped, TooManySkipped, TakesTooLong;
    var parsed := CronPatterns.ParseCronPattern(pattern);
    if parsed.Err? { return Err(parsed.error); }
    var next;
    match tz {
      case Some(zone) =>
        next := NextCronOccurrenceTz(parsed.value, afterMs, zone);
        if LittleSkipped(zone, afterMs) { LittleIsEnough(parsed.value, zone, afterMs); }
      case None =>
        var found := NextCronOccurrenceUtc(parsed.value, afterMs);
        next := if found.Some? then At(found.value) else NothingInHorizon;
    }
    assert Outcome(parsed.value, tz, afterMs, next);
    r := Ok(next);
  }

  // ---- When the search in UTC succeeds ----

  ghost predicate UtcFinds(cron: CronPattern, afterMs: int) {
    exists w :: InHorizon(afterMs, w) && Matches(cron, w)
  }

  lemma HorizonsAgree(cron: CronPattern, afterMs: int)
    ensures UtcFinds(cron, afterMs) <==> MatchInHorizon(cron, SearchStart(afterMs))
  {
    var start := SearchStart(afterMs);
    hide Matches;
    forall w | ValidWall(w) ensures InHorizon(afterMs, w) <==> !Before(w, start) && w.year <= start.year + MAX_SEARCH_YEARS {
      BeforeIsEarlier(w, start);
      AfterSecond(Seconds(w), afterMs);
    }
    if UtcFinds(cron, afterMs) {
      var w :| InHorizon(afterMs, w) && Matches(cron, w);
      assert ValidWall(w) && !Before(w, start);
    }
  }

  lemma AfterSecond(s: int, afterMs: int)
    ensures 1000 * s > afterMs <==> s >= afterMs / 1000 + 1
  {}

  lemma EveryStart(w: Wall)
    requires ValidWall(w)
    ensures SearchStart(1000 * (Seconds(w) - 1)) == w
  {
    hide Seconds, WallAt, ValidWall;
    WallAtSeconds(w);
    assert 1000 * (Seconds(w) - 1) / 1000 + 1 == Seconds(w);
  }

  /** A pattern that ever matches has an occurrence within the horizon of every instant, so the search in UTC never
      throws for it, exactly if it is not confined to leap days or names enough of their weekdays.
  */
  lemma UtcAlwaysFindsExactly(cron: CronPattern)
    requires WellFormed(cron) && SomeMatch(cron)
    ensures (forall afterMs :: UtcFinds(cron, afterMs)) <==> !RareLeapDay(cron) || EnoughFifths(cron)
  {
    hide MatchInHorizon, UtcFinds, RareLeapDay, EnoughFifths, WellFormed, SomeMatch;
    HorizonIsEnoughExactly(cron);
    SameHorizons(cron);
  }

  lemma SameHorizons(cron: CronPattern)
    ensures (forall afterMs :: UtcFinds(cron, afterMs)) <==> forall start :: ValidWall(start) ==> MatchInHorizon(cron, start)
  {
    hide MatchInHorizon, UtcFinds, ValidWall, SearchStart, Seconds;
    forall afterMs ensures UtcFinds(cron, afterMs) <==> MatchInHorizon(cron, SearchStart(afterMs)) { HorizonsAgree(cron, afterMs); }
    forall start | ValidWall(start) ensures SearchStart(1000 * (Seconds(start) - 1)) == start { EveryStart(start); }
  }

  /** With day-of-week unrestricted, one day of the month that exists in some year is enough, 29 February included. */
  lemma LiteralDateAlwaysFound(cron: CronPattern, month: int, day: int, afterMs: int)
    requires WellFormed(cron) && cron.dowUnrestricted && month in cron.month.values && day in cron.dom.values
    requires day <= DaysInMonth(2000, month)
    ensures UtcFinds(cron, afterMs)
  {
    LiteralDateMatches(cron, month, day);
    assert 0 in cron.dow.values;
    UtcAlwaysFindsExactly(cron);
  }

  lemma LiteralDateMatches(cron: CronPattern, month: int, day: int)
    requires WellFormed(cron) && cron.dowUnrestricted && month in cron.month.values && day in cron.dom.values
    requires day <= DaysInMonth(2000, month)
    ensures SomeMatch(cron)
  {
    MatchByDom(cron, Wall(1999, 1, 1, 0, 0, 0), Wall(2000, month, day, 0, 0, 0));
  }
}
