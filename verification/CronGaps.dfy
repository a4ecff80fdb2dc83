/** How little wall time a zone must skip for the search never to give up. */
module CronGaps {
  import opened Calendar
  import opened CronDays
  import opened CronWalker
  import opened Timezone
  import opened CronTz

  /** Minutes the clock may skip over the years searched: a little more than 34 hours. */
  const MAX_LOST_MINUTES := 2_062

  /** Minutes the clock skips at an instant. */
  function Jump(zone: Zone, t: int): nat {
    if zone(t - 1) < zone(t) then (zone(t) - zone(t - 1)) / MINUTE_MS else 0
  }

  function Lost(zone: Zone, jumps: seq<int>): nat {
    if jumps == [] then 0 else Lost(zone, jumps[..|jumps| - 1]) + Jump(zone, jumps[|jumps| - 1])
  }

  /** The list names every instant after `after` at which the clock skips ahead, up to the last year searched. */
  ghost predicate AllJumps(zone: Zone, after: int, jumps: seq<int>) {
    var lastYear := TzStart(zone, after).year + MAX_SEARCH_YEARS;
    forall t :: t > after && zone(t - 1) < zone(t) && TzParts(zone, t - 1).year <= lastYear ==> t in jumps
  }

  /** The zone skips no more than the steps allow for. */
  ghost predicate LittleSkipped(zone: Zone, after: int) {
    exists jumps :: AllJumps(zone, after, jumps) && Lost(zone, jumps) <= MAX_LOST_MINUTES
  }

  /** What is skipped after `after` is skipped by a jump after `after`. */
  lemma JumpIsLater(zone: Zone, after: int, w: Wall, t: int)
    requires ResumesAt(zone, w, t) && Naive(w) > Clock(zone, after)
    ensures t > after && zone(t - 1) < zone(t)
  {
    hide Naive;
    assert t <= after && after <= t - 1 + 2 * DAY_MS ==> InOrder(t - 1, t, after);
  }

  lemma SkippedByJump(zone: Zone, after: int, w: Wall, jumps: seq<int>)
    requires ValidWall(w) && Skipped(zone, w) && AllJumps(zone, after, jumps)
    requires !Before(w, TzStart(zone, after)) && w.year <= TzStart(zone, after).year + MAX_SEARCH_YEARS
    ensures exists t :: t in jumps && ResumesAt(zone, w, t)
  {
    hide Occurrence, TzStart, Naive, Seconds;
    StartIsNext(zone, after, w);
    OccurrenceIsFirstReach(zone, w);
    var t := Occurrence(zone, w);
    JumpIsLater(zone, after, w, t);
    EarlierParts(zone, w, t - 1);
  }

  lemma EarlierParts(zone: Zone, w: Wall, t: int)
    requires ValidWall(w) && Clock(zone, t) < Naive(w)
    ensures TzParts(zone, t).year <= w.year
  {
    BeforeIsEarlier(w, TzParts(zone, t));
  }

  // ---- One jump ----

  /** A jump happens on a whole minute and skips whole minutes. */
  lemma JumpOnMinute(zone: Zone, t: int) returns (k: int)
    requires zone(t - 1) < zone(t)
    ensures t + zone(t - 1) == MINUTE_MS * k && t + zone(t) == MINUTE_MS * (k + Jump(zone, t))
  {
    assert !Timezone.SameMinute(t - 1, t);
    var i, j := zone(t - 1) / MINUTE_MS, zone(t) / MINUTE_MS;
    k := t / MINUTE_MS + i;
    assert t == MINUTE_MS * (t / MINUTE_MS);
    assert Jump(zone, t) == j - i;
  }

  lemma ByOneJump(zone: Zone, t: int, s: set<Wall>)
    requires forall w :: w in s ==> ValidWall(w) && ResumesAt(zone, w, t)
    ensures |s| <= 60 * Jump(zone, t)
  {
    hide Seconds;
    if zone(t - 1) < zone(t) {
      var k := JumpOnMinute(zone, t);
      SecondsBound(s, 60 * k - 1, 60 * Jump(zone, t));
    } else {
      NobodyIn(s);
    }
  }

  lemma NobodyIn(s: set<Wall>)
    requires forall w :: w !in s
    ensures |s| == 0
  {
    assert s == {};
  }

  /** Of wall times on the same second of the minute there is one a minute. */
  lemma {:induction false} MinutesBound(s: set<Wall>, second: int, first: int, n: nat)
    requires forall w :: w in s ==> ValidWall(w) && w.second == second && 60 * first <= Seconds(w) < 60 * (first + n)
    ensures |s| <= n
    decreases n
  {
    if n == 0 {
      NobodyIn(s);
    } else if w :| w in s && Seconds(w) >= 60 * (first + n - 1) {
      forall v | v in s - {w} ensures Seconds(v) < 60 * (first + n - 1) {
        if Seconds(v) >= 60 * (first + n - 1) { SameMinuteOnce(v, w, first + n - 1); }
      }
      MinutesBound(s - {w}, second, first, n - 1);
      assert |s| == |s - {w}| + 1;
    } else {
      MinutesBound(s, second, first, n - 1);
    }
  }

  lemma SameMinuteOnce(v: Wall, w: Wall, minute: int)
    requires ValidWall(v) && ValidWall(w) && v.second == w.second
    requires 60 * minute <= Seconds(v) < 60 * (minute + 1) && 60 * minute <= Seconds(w) < 60 * (minute + 1)
    ensures v == w
  {
    SecondInMinute(v, minute);
    SecondInMinute(w, minute);
    SameSecond(v, w);
  }

  lemma SecondInMinute(w: Wall, minute: int)
    requires ValidWall(w) && 60 * minute <= Seconds(w) < 60 * (minute + 1)
    ensures Seconds(w) == 60 * minute + w.second
  {
    hide DayNumber;
    var d := DayNumber(w.year, w.month, w.day);
    assert Seconds(w) == 60 * (1440 * d + 60 * w.hour + w.minute) + w.second;
  }

  lemma EndsByOneJump(zone: Zone, t: int, ends: set<Wall>, second: int)
    requires forall w :: w in ends ==> ValidWall(w) && w.second == second && ResumesAt(zone, w, t)
    ensures |ends| <= Jump(zone, t)
  {
    hide Seconds;
    if zone(t - 1) < zone(t) {
      var k := JumpOnMinute(zone, t);
      MinutesBound(ends, second, k, Jump(zone, t));
    } else {
      NobodyIn(ends);
    }
  }

  // ---- All jumps ----

  ghost predicate ByJumps(zone: Zone, jumps: seq<int>, s: set<Wall>) {
    forall w :: w in s ==> ValidWall(w) && exists t :: t in jumps && ResumesAt(zone, w, t)
  }

  ghost function SkippedAt(zone: Zone, t: int, s: set<Wall>): set<Wall> {
    set w | w in s && ResumesAt(zone, w, t)
  }

  lemma ByRest(zone: Zone, jumps: seq<int>, s: set<Wall>)
    requires jumps != [] && ByJumps(zone, jumps, s)
    ensures ByJumps(zone, jumps[..|jumps| - 1], s - SkippedAt(zone, jumps[|jumps| - 1], s))
  {
    hide ResumesAt;
    assert jumps == jumps[..|jumps| - 1] + [jumps[|jumps| - 1]];
  }

  lemma SplitSize(s: set<Wall>, part: set<Wall>)
    requires part <= s
    ensures |s| == |s - part| + |part|
  {
    assert s == s - part + part;
  }

  lemma {:induction false} LostSeconds(zone: Zone, jumps: seq<int>, s: set<Wall>)
    requires ByJumps(zone, jumps, s)
    ensures |s| <= 60 * Lost(zone, jumps)
    decreases |jumps|
  {
    hide ResumesAt, Jump;
    if jumps == [] {
      NobodyIn(s);
    } else {
      var last := jumps[|jumps| - 1];
      var part := SkippedAt(zone, last, s);
      ByRest(zone, jumps, s);
      LostSeconds(zone, jumps[..|jumps| - 1], s - part);
      ByOneJump(zone, last, part);
      SplitSize(s, part);
    }
  }

  lemma {:induction false} LostEnds(zone: Zone, jumps: seq<int>, ends: set<Wall>, second: int)
    requires ByJumps(zone, jumps, ends) && forall w :: w in ends ==> w.second == second
    ensures |ends| <= Lost(zone, jumps)
    decreases |jumps|
  {
    hide ResumesAt, Jump;
    if jumps == [] {
      NobodyIn(ends);
    } else {
      var last := jumps[|jumps| - 1];
      var part := SkippedAt(zone, last, ends);
      ByRest(zone, jumps, ends);
      LostEnds(zone, jumps[..|jumps| - 1], ends - part, second);
      EndsByOneJump(zone, last, part, second);
      SplitSize(ends, part);
    }
  }

  /** Only one second of a minute is the last listed one. */
  lemma OneLastSecond(cron: CronPattern, a: int, b: int)
    requires WellFormed(cron) && a in cron.second.values && b in cron.second.values && LastSecond(cron, a) && LastSecond(cron, b)
    ensures a == b
  {
    NextSkipsNothing(cron.second, 0, 59, a);
    NextSkipsNothing(cron.second, 0, 59, b);
  }

  /** In a zone that skips little over the years searched, too few times are turned down to end the search. */
  lemma LittleIsEnough(cron: CronPattern, zone: Zone, after: int)
    requires WellFormed(cron) && LittleSkipped(zone, after)
    ensures !ManySkipped(cron, zone, TzStart(zone, after))
  {
    hide WellFormed, Skipped, TzStart, ResumesAt, AllJumps, Lost, DateMatches, LastSecond;
    var jumps :| AllJumps(zone, after, jumps) && Lost(zone, jumps) <= MAX_LOST_MINUTES;
    forall s: set<Wall>, ends: set<Wall> | SkippedTimes(cron, zone, TzStart(zone, after), s, ends)
      ensures |s| + 4 * |ends| < 132_000
    {
      forall w | w in s ensures exists t :: t in jumps && ResumesAt(zone, w, t) { SkippedByJump(zone, after, w, jumps); }
      LostSeconds(zone, jumps, s);
      if e :| e in ends {
        forall w | w in ends ensures w.second == e.second { OneLastSecond(cron, w.second, e.second); }
        LostEnds(zone, jumps, ends, e.second);
      } else {
        NobodyIn(ends);
      }
    }
  }
}
