/** The next occurrence of a pattern evaluated in UTC. */
module CronUtc {
  import opened Calendar
  import opened CronDays
  import opened CronWalker
  import opened Wrappers

  /** A whole second, in milliseconds since the epoch, at which the pattern matches in UTC. */
  predicate MatchesUtc(cron: CronPattern, t: int) {
    t % 1000 == 0 && Matches(cron, WallAt(t / 1000))
  }

  /** The first second after `afterMs`, where the search starts. */
  function SearchStart(afterMs: int): (start: Wall)
    ensures ValidWall(start) && Seconds(start) == afterMs / 1000 + 1
  {
    WallAt(afterMs / 1000 + 1)
  }

  /** The wall times after `afterMs` that the search looks at: up to ten years past its start. */
  ghost predicate InHorizon(afterMs: int, w: Wall) {
    ValidWall(w) && 1000 * Seconds(w) > afterMs && w.year <= SearchStart(afterMs).year + MAX_SEARCH_YEARS
  }

  /** The next occurrence strictly after `afterMs`, or None where the program throws. The step
      guard never ends this search: None means that nothing matches up to the end of the horizon.
   */
  method NextCronOccurrenceUtc(cron: CronPattern, afterMs: int) returns (r: Option<int>)
    requires WellFormed(cron)
    ensures r.Some? ==> r.value > afterMs && MatchesUtc(cron, r.value)
                        && forall t :: afterMs < t < r.value ==> !MatchesUtc(cron, t)
    ensures r.None? <==> forall w :: InHorizon(afterMs, w) ==> !Matches(cron, w)
  {
    var start := SearchStart(afterMs);
    var resolve := (w: Wall) => Some(1000 * Seconds(w));
    var outcome := SearchCronWall(cron, start, resolve);
    match outcome {
      case Found(at, instant) =>
        r := Some(instant);
        FoundInUtc(cron, afterMs, start, at);
      case HorizonReached =>
        r := None;
        forall w | InHorizon(afterMs, w)
          ensures !Matches(cron, w)
        {
          BeforeIsEarlier(w, start);
          assert !Hit(cron, resolve, w);
        }
      case StepsExhausted =>
        NeverRejected(cron, start);
        assert false;
    }
  }

  lemma FoundInUtc(cron: CronPattern, afterMs: int, start: Wall, at: Wall)
    requires ValidWall(start) && Seconds(start) == afterMs / 1000 + 1
    requires LeastHit(cron, (w: Wall) => Some(1000 * Seconds(w)), start, at)
    ensures 1000 * Seconds(at) > afterMs && MatchesUtc(cron, 1000 * Seconds(at))
    ensures forall t :: afterMs < t < 1000 * Seconds(at) ==> !MatchesUtc(cron, t)
  {
    MatchesItsInstant(cron, at);
    BeforeIsEarlier(at, start);
    forall t | afterMs < t < 1000 * Seconds(at)
      ensures !MatchesUtc(cron, t)
    {
      NothingSoonerMs(cron, start, at, afterMs, t);
    }
  }

  lemma MatchesItsInstant(cron: CronPattern, w: Wall)
    requires ValidWall(w) && Matches(cron, w)
    ensures MatchesUtc(cron, 1000 * Seconds(w))
  {
    WallAtSeconds(w);
    assert 1000 * Seconds(w) / 1000 == Seconds(w);
  }

  lemma NothingSoonerMs(cron: CronPattern, start: Wall, at: Wall, afterMs: int, t: int)
    requires ValidWall(start) && LeastHit(cron, (w: Wall) => Some(1000 * Seconds(w)), start, at)
    requires Seconds(start) == afterMs / 1000 + 1 && afterMs < t < 1000 * Seconds(at)
    ensures !MatchesUtc(cron, t)
  {
    if t % 1000 == 0 {
      NothingSooner(cron, start, at, t / 1000, WallAt(t / 1000));
    }
  }

  lemma NothingSooner(cron: CronPattern, start: Wall, at: Wall, n: int, w: Wall)
    requires ValidWall(start) && LeastHit(cron, (w: Wall) => Some(1000 * Seconds(w)), start, at)
    requires ValidWall(w) && Seconds(w) == n && Seconds(start) <= n < Seconds(at)
    ensures !Matches(cron, w)
  {
    BeforeIsEarlier(w, start);
    BeforeIsEarlier(w, at);
    assert !Hit(cron, (w: Wall) => Some(1000 * Seconds(w)), w);
  }

  lemma NeverRejected(cron: CronPattern, start: Wall)
    ensures !ManyRejections(cron, (w: Wall) => Some(1000 * Seconds(w)), start)
  {
    var resolve := (w: Wall) => Some(1000 * Seconds(w));
    forall rejected: set<Wall>, minuteEnds: set<Wall> | RejectedTimes(cron, resolve, start, rejected, minuteEnds)
      ensures |rejected| + 4 * |minuteEnds| < 186_000
    {
      forall w ensures w !in rejected {
        assert w in rejected ==> Rejected(cron, resolve, start, w);
      }
      assert rejected == {} && minuteEnds == {};
    }
  }
}
