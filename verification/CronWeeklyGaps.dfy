/** A zone in which the search gives up: every Monday at two the clock skips an hour, sixty weeks long. */
module CronWeeklyGaps {
  import opened Calendar
  import opened CronDays
  import opened Timezone
  import opened CronTz

  const WEEK_MINUTES := 10_080
  const GAP_MINUTE := 5_880
  const GAP_WEEKS := 60

  /** Weeks begin on Thursday midnight, like the epoch. The hour skipped on Monday is given back on Thursday. */
  function GapOffset(minute: int): int {
    if 0 <= minute < GAP_WEEKS * WEEK_MINUTES && minute % WEEK_MINUTES >= GAP_MINUTE then 3_600_000 else 0
  }

  lemma GapsAreRare(a: int, b: int, c: int)
    requires a <= b <= c <= a + 2_880
    ensures GapOffset(a) == GapOffset(b) || GapOffset(b) == GapOffset(c)
  {}

  lemma GapsObeyTheRules()
    ensures ZoneRules(t => GapOffset(t / MINUTE_MS))
  {
    hide GapOffset;
    forall a, b, c | InOrder(a, b, c)
      ensures GapOffset(a / MINUTE_MS) == GapOffset(b / MINUTE_MS) || GapOffset(b / MINUTE_MS) == GapOffset(c / MINUTE_MS)
    {
      GapsAreRare(a / MINUTE_MS, b / MINUTE_MS, c / MINUTE_MS);
    }
    forall m ensures GapOffset(m) == 0 || GapOffset(m) == 3_600_000 { GapSizes(m); }
  }

  lemma GapSizes(minute: int)
    ensures GapOffset(minute) == 0 || GapOffset(minute) == 3_600_000
  {}

  ghost predicate SkipsMondays(zone: Zone) {
    forall t :: zone(t) == GapOffset(t / MINUTE_MS)
  }

  function WeeklyGaps(): (zone: Zone)
    ensures SkipsMondays(zone)
  {
    GapsObeyTheRules();
    t => GapOffset(t / MINUTE_MS)
  }

  /** `* * 2 * * 1`: every second of the hour from two on Mondays. */
  const MONDAYS_AT_TWO := CronPattern(
    CronField(set v | 0 <= v <= 59, seq(60, i requires 0 <= i => i)), CronField(set v | 0 <= v <= 59, seq(60, i requires 0 <= i => i)),
    CronField({2}, [2]), CronField(set d | 1 <= d <= 31, seq(31, i requires 0 <= i => i + 1)),
    CronField(set m | 1 <= m <= 12, seq(12, i requires 0 <= i => i + 1)), CronField({1}, [1]),
    false, false, [], {}, [], true, true, true, false)

  lemma MondaysAreWellFormed()
    ensures WellFormed(MONDAYS_AT_TWO)
  {
    var cron := MONDAYS_AT_TWO;
    forall v | 0 <= v <= 59 ensures v in cron.second.sorted && v in cron.minute.sorted {
      assert cron.second.sorted[v] == v && cron.minute.sorted[v] == v;
    }
    forall v | 1 <= v <= 31 ensures v in cron.dom.sorted { assert cron.dom.sorted[v - 1] == v; }
    forall v | 1 <= v <= 12 ensures v in cron.month.sorted { assert cron.month.sorted[v - 1] == v; }
  }

  /** Two o'clock on a Monday, in seconds from the epoch on the wall clock. */
  predicate InSlot(s: int) {
    352_800 <= s % 604_800 < 356_400
  }

  /** A pattern with a wildcard time that matches exactly those times. */
  ghost predicate TwoOnMondays(cron: CronPattern) {
    WellFormed(cron) && cron.wildcardTime && forall w :: ValidWall(w) ==> (Matches(cron, w) <==> InSlot(Seconds(w)))
  }

  lemma MondaysAreMondays()
    ensures TwoOnMondays(MONDAYS_AT_TWO)
  {
    MondaysAreWellFormed();
    hide WellFormed, Matches, Seconds;
    forall w | ValidWall(w) ensures Matches(MONDAYS_AT_TWO, w) <==> InSlot(Seconds(w)) { MatchesInSlot(w); }
  }

  lemma MatchesInSlot(w: Wall)
    requires ValidWall(w)
    ensures Matches(MONDAYS_AT_TWO, w) <==> InSlot(Seconds(w))
  {
    var cron := MONDAYS_AT_TWO;
    var d := DayNumber(w.year, w.month, w.day);
    hide DayNumber, DaysInMonth;
    assert DomMatches(cron, w.day, DayOfWeek(w.year, w.month, w.day), DaysInMonth(w.year, w.month)) by { MonthIsShort(w); }
    SlotOfDay(d, SecondOfDay(w.hour, w.minute, w.second));
  }

  lemma MonthIsShort(w: Wall)
    requires ValidWall(w)
    ensures 1 <= w.day <= 31
  {}

  lemma SlotOfDay(d: int, sod: int)
    requires 0 <= sod < 86_400
    ensures InSlot(SECONDS_PER_DAY * d + sod) <==> (d + 4) % 7 == 1 && 7_200 <= sod < 10_800
  {
    var q, r := d / 7, d % 7;
    var s := SECONDS_PER_DAY * d + sod;
    assert s == 604_800 * q + (86_400 * r + sod);
    assert s % 604_800 == 86_400 * r + sod;
  }

  // ---- Sixty weeks of skipped hours ----

  const GAPS_END := 36_288_000

  lemma SlotIsSkipped(zone: Zone, w: Wall)
    requires SkipsMondays(zone) && 0 <= Seconds(w) < GAPS_END && InSlot(Seconds(w))
    ensures Skipped(zone, w)
  {
    hide Seconds, InSlot, ZoneRules, GapOffset;
    forall t ensures !Shows(zone, t, w) {
      ShownInNoCase(Seconds(w), t);
    }
  }

  lemma ShownInNoCase(s: int, t: int)
    requires 0 <= s < GAPS_END && InSlot(s)
    ensures t + GapOffset(t / MINUTE_MS) != 1000 * s
  {
    var m := s / 60;
    assert m % WEEK_MINUTES == s % 604_800 / 60 by { MinuteOfWeek(s); }
    assert t == 1000 * s ==> t / MINUTE_MS == m;
    assert t == 1000 * s - 3_600_000 ==> t / MINUTE_MS == m - 60;
  }

  lemma MinuteOfWeek(s: int)
    ensures s / 60 % 10_080 == s % 604_800 / 60
  {
    var q, r := s / 604_800, s % 604_800;
    assert s == 604_800 * q + r;
    assert s / 60 == 10_080 * q + r / 60;
  }

  /** Nothing fires in these weeks. */
  lemma FiresLater(cron: CronPattern, zone: Zone, t: int)
    requires TwoOnMondays(cron) && SkipsMondays(zone) && t > 0 && MatchesAt(cron, zone, t)
    ensures t >= 1000 * (GAPS_END + 352_800) && Seconds(TzParts(zone, t)) == t / 1000
  {
    hide Matches, Seconds, TzParts, ZoneRules, WellFormed, InSlot, GapOffset;
    var p := TzParts(zone, t);
    ShowsParts(zone, t);
    if 0 <= Seconds(p) < GAPS_END { SlotIsSkipped(zone, p); }
    SlotsLater(t, Seconds(p));
  }

  lemma SlotsLater(t: int, s: int)
    requires t > 0 && t % 1000 == 0 && t + GapOffset(t / MINUTE_MS) == 1000 * s && InSlot(s) && !(0 <= s < GAPS_END)
    ensures t >= 1000 * (GAPS_END + 352_800) && s == t / 1000
  {
    assert s >= GAPS_END;
    assert t < 1000 * GAPS_END ==> s < GAPS_END + 3_600;
    assert s >= GAPS_END + 352_800;
  }

  function SlotSecond(n: nat): int {
    n / 3_600 * 604_800 + 352_800 + n % 3_600
  }

  lemma SlotSecondInSlot(n: nat)
    requires n < 216_000
    ensures 0 < SlotSecond(n) < GAPS_END && InSlot(SlotSecond(n))
  {}

  lemma SlotsDiffer(a: nat, b: nat)
    requires a < b
    ensures SlotSecond(a) < SlotSecond(b)
  {}

  ghost function Slots(n: nat): set<Wall> {
    set i: nat | i < n :: WallAt(SlotSecond(i))
  }

  lemma {:induction false} SlotsCount(n: nat)
    ensures |Slots(n)| == n
  {
    hide SlotSecond, WallAt;
    if n == 0 {
      assert Slots(0) == {};
    } else {
      SlotsCount(n - 1);
      var last := WallAt(SlotSecond(n - 1));
      forall i: nat | i < n - 1 ensures WallAt(SlotSecond(i)) != last {
        SlotsDiffer(i, n - 1);
        assert Seconds(WallAt(SlotSecond(i))) != Seconds(last);
      }
      assert Slots(n) == Slots(n - 1) + {last};
    }
  }

  lemma SlotTime(w: Wall)
    requires w in Slots(216_000)
    ensures ValidWall(w) && 0 < Seconds(w) < GAPS_END && InSlot(Seconds(w))
  {
    var n: nat :| n < 216_000 && w == WallAt(SlotSecond(n));
    SlotSecondInSlot(n);
  }

  lemma InSearchedYears(w: Wall)
    requires ValidWall(w) && 0 < Seconds(w) < GAPS_END
    ensures w.year <= 1980
  {
    hide Seconds;
    YearEdges();
    BeforeIsEarlier(w, Wall(1981, 1, 1, 0, 0, 0));
  }

  lemma YearEdges()
    ensures Seconds(Wall(1970, 1, 1, 0, 0, 0)) == 0 && Seconds(Wall(1981, 1, 1, 0, 0, 0)) == 347_155_200
  {
    FirstDays();
    hide DayNumber, SecondOfDay;
  }

  lemma FirstDays()
    ensures DayNumber(1970, 1, 1) == 0 && DayNumber(1981, 1, 1) == 4_018 && SecondOfDay(0, 0, 0) == 0
  {}

  lemma SearchStartsInYear(zone: Zone)
    requires SkipsMondays(zone)
    ensures TzStart(zone, 0).year >= 1970 && Clock(zone, 0) == 0
  {
    hide ZoneRules, TzParts;
    assert zone(0) == GapOffset(0 / MINUTE_MS);
    assert Seconds(TzStart(zone, 0)) == 1;
    hide TzStart;
    EpochYear(TzStart(zone, 0));
  }

  lemma EpochYear(w: Wall)
    requires ValidWall(w) && Seconds(w) >= 0
    ensures w.year >= 1970
  {
    hide Seconds;
    YearEdges();
    BeforeIsEarlier(w, Wall(1970, 1, 1, 0, 0, 0));
  }

  lemma SlotsSkippedFirst(cron: CronPattern, zone: Zone)
    requires TwoOnMondays(cron) && SkipsMondays(zone)
    ensures SkippedFirst(cron, zone, 0, Slots(216_000))
  {
    SearchStartsInYear(zone);
    hide Matches, Seconds, MatchesAt, Slots, TzStart, Skipped, ZoneRules, WellFormed, InSlot, TzParts, SkipsMondays;
    forall w | w in Slots(216_000)
      ensures ValidWall(w) && Matches(cron, w) && Skipped(zone, w) && !Before(w, TzStart(zone, 0)) && w.year <= 1980
    {
      SlotTime(w);
      SlotIsSkipped(zone, w);
      InSearchedYears(w);
      StartIsNext(zone, 0, w);
    }
    forall w, t | w in Slots(216_000) && t > 0 && MatchesAt(cron, zone, t) ensures Before(w, TzParts(zone, t)) {
      SlotTime(w);
      FiresLater(cron, zone, t);
      BeforeIsEarlier(w, TzParts(zone, t));
    }
  }

  const FIRST_FIRE := 36_640_800_000

  lemma FirstFireMatches(cron: CronPattern, zone: Zone)
    requires TwoOnMondays(cron) && SkipsMondays(zone)
    ensures cron.wildcardTime && MatchesAt(cron, zone, FIRST_FIRE)
  {
    hide Matches, Seconds, ZoneRules, WellFormed, TzParts;
    assert zone(FIRST_FIRE) == GapOffset(FIRST_FIRE / MINUTE_MS) == 0;
    assert Seconds(TzParts(zone, FIRST_FIRE)) == 36_640_800;
  }

  lemma NoScan(zone: Zone)
    requires SkipsMondays(zone)
    ensures ScanEnd(zone, 0) == 0
  {
    hide ZoneRules, TzOffsetMs;
    assert zone(0) == GapOffset(0) && zone(DST_WINDOW_MS) == GapOffset(DST_WINDOW_MS / MINUTE_MS);
  }

  lemma TooManySlots(cron: CronPattern, zone: Zone)
    requires TwoOnMondays(cron) && SkipsMondays(zone)
    ensures TooManySkipped(cron, zone, 0)
  {
    assert cron.wildcardTime;
    hide TwoOnMondays, MatchesAt, Slots, ScanEnd, SkippedFirst, ZoneRules, SkipsMondays;
    NoScan(zone);
    SlotsCount(216_000);
    SlotsSkippedFirst(cron, zone);
  }

  lemma NothingFiresBefore(cron: CronPattern, zone: Zone, u: int)
    requires TwoOnMondays(cron) && SkipsMondays(zone) && 0 < u < FIRST_FIRE
    ensures !MatchesAt(cron, zone, u)
  {
    hide TwoOnMondays, MatchesAt, ZoneRules, SkipsMondays, TzParts, Seconds;
    if MatchesAt(cron, zone, u) { FiresLater(cron, zone, u); }
  }

  /** The pattern fires in week 61, but the search from the epoch has spent its steps on skipped hours before. */
  lemma GivesUpThoughItFires(cron: CronPattern, zone: Zone)
    requires TwoOnMondays(cron) && SkipsMondays(zone)
    ensures TooManySkipped(cron, zone, 0) && NextFire(cron, zone, 0, FIRST_FIRE)
  {
    hide TwoOnMondays, MatchesAt, TooManySkipped, ZoneRules, SkipsMondays;
    TooManySlots(cron, zone);
    FirstFireMatches(cron, zone);
    forall u | 0 < u < FIRST_FIRE ensures !MatchesAt(cron, zone, u) { NothingFiresBefore(cron, zone, u); }
  }
}
