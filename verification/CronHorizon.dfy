/** Why ten years of search are enough: a pattern that matches any date at all matches one within
    ten years of every start, unless it only ever asks for a fifth weekday of February.
 */
module CronHorizon {
  import opened Calendar
  import opened CronDays
  import opened CronWalker

  /** A match at or after `start`, in the years the walk covers. */
  ghost predicate MatchInHorizon(cron: CronPattern, start: Wall) {
    exists w :: ValidWall(w) && Matches(cron, w) && !Before(w, start) && w.year <= start.year + MAX_SEARCH_YEARS
  }

  ghost predicate SomeMatch(cron: CronPattern) {
    exists w :: ValidWall(w) && Matches(cron, w)
  }

  /** The day-of-month field names no day that February ever has. */
  ghost predicate NoDomInFebruary(cron: CronPattern) {
    && !cron.domLast && !cron.domLastWeekday
    && (forall d :: d in cron.dom.values ==> d > 29)
    && (forall n :: n in cron.domNearestWeekday ==> n > 29)
  }

  /** The day-of-week field names more than fifth weekdays, so it names a day of every month. */
  ghost predicate EveryMonth(cron: CronPattern) {
    || (exists d :: d in cron.dow.values)
    || (exists d :: d in cron.dowLast)
    || (exists p :: p in cron.dowNth && p.1 < 5)
  }

  /** Only a 29 February on the right weekday can match: such days may be 28 years apart or more. */
  ghost predicate RareLeapDay(cron: CronPattern) {
    && (forall m :: m in cron.month.values ==> m == 2)
    && !EveryMonth(cron)
    && (cron.domUnrestricted || NoDomInFebruary(cron))
  }

  /** Eight years always contain a leap year, also across a century that skips one. */
  lemma LeapYearSoon(year: int) returns (leap: int)
    ensures year < leap <= year + 8 && IsLeap(leap)
  {
    leap := (year / 4 + 1) * 4;
    if !IsLeap(leap) {
      leap := leap + 4;
    }
  }

  /** A matching date extends to a matching time of that day. */
  lemma MatchOnDate(cron: CronPattern, start: Wall, year: int, month: int, day: int)
    requires WellFormed(cron) && month in cron.month.values
    requires ValidDate(year, month, day) && DateMatches(cron, year, month, day)
    requires start.year < year <= start.year + MAX_SEARCH_YEARS
    ensures MatchInHorizon(cron, start)
  {
    FirstIsLeast(cron.hour, 0, 23);
    FirstIsLeast(cron.minute, 0, 59);
    FirstIsLeast(cron.second, 0, 59);
    var w := Wall(year, month, day, cron.hour.sorted[0], cron.minute.sorted[0], cron.second.sorted[0]);
    assert ValidWall(w) && Matches(cron, w);
  }

  // ---- Day-of-month matches come back every leap year ----

  /** A day-of-month match recurs in the same month of every leap year. */
  lemma DomRecurs(cron: CronPattern, year: int, month: int, day: int, leap: int) returns (d: int)
    requires WellFormed(cron) && ValidDate(year, month, day) && IsLeap(leap)
    requires DomMatches(cron, day, DayOfWeek(year, month, day), DaysInMonth(year, month))
    ensures ValidDate(leap, month, d)
    ensures DomMatches(cron, d, DayOfWeek(leap, month, d), DaysInMonth(leap, month))
  {
    var length := DaysInMonth(leap, month);
    if day in cron.dom.values {
      d := day;
    } else if cron.domLast {
      d := length;
    } else if cron.domLastWeekday {
      d := NearestIn(leap, month, length);
    } else {
      var i :| 0 <= i < |cron.domNearestWeekday| && cron.domNearestWeekday[i] <= DaysInMonth(year, month);
      assert cron.domNearestWeekday[i] in cron.domNearestWeekday;
      d := NearestIn(leap, month, cron.domNearestWeekday[i]);
    }
  }

  /** Which day an nW entry picks, as a function of the day of the week day n falls on. */
  lemma NearestIn(year: int, month: int, n: int) returns (d: int)
    requires ValidDate(year, month, n)
    ensures ValidDate(year, month, d)
    ensures var length := DaysInMonth(year, month);
            NearestWeekday(n, DowOf(n, d, DayOfWeek(year, month, d)), length) == d
  {
    var length := DaysInMonth(year, month);
    var dow := DayOfWeek(year, month, n);
    d := NearestWeekday(n, dow, length);
    NearestWeekdayIsNearest(n, n, dow, length);
    SameMonthDow(year, month, d, n);
  }

  lemma SameMonthDow(year: int, month: int, a: int, b: int)
    ensures DowOf(b, a, DayOfWeek(year, month, a)) == DayOfWeek(year, month, b)
  {
    WeekdayShift(DayFromYear(year) + DaysBeforeMonth(year, month) + a + 3, b - a);
  }

  lemma WeekdayShift(n: int, days: int)
    ensures (n % 7 + days) % 7 == (n + days) % 7
  {}

  // ---- Day-of-week matches come back every year ----

  /** The day of a week starting at `first` that falls on `dow`. */
  lemma DayOfThatWeek(year: int, month: int, first: int, dow: int) returns (d: int)
    requires 0 <= dow <= 6
    ensures first <= d < first + 7 && DayOfWeek(year, month, d) == dow
  {
    d := first + (dow - DayOfWeek(year, month, first)) % 7;
    SameMonthDow(year, month, first, d);
  }

  /** A day-of-week match other than a fifth weekday recurs in every month. */
  lemma DowRecurs(cron: CronPattern, year: int, month: int) returns (d: int)
    requires WellFormed(cron) && 1 <= month <= 12
    requires EveryMonth(cron)
    ensures ValidDate(year, month, d)
    ensures DowMatches(cron, d, DayOfWeek(year, month, d), DaysInMonth(year, month))
  {
    if exists d :: d in cron.dow.values {
      var dow :| dow in cron.dow.values;
      d := DayOfThatWeek(year, month, 1, dow);
    } else if exists d :: d in cron.dowLast {
      var dow :| dow in cron.dowLast;
      d := DayOfThatWeek(year, month, DaysInMonth(year, month) - 6, dow);
    } else {
      var i :| 0 <= i < |cron.dowNth| && cron.dowNth[i].1 < 5;
      var (dow, nth) := cron.dowNth[i];
      d := DayOfThatWeek(year, month, 7 * nth - 6, dow);
    }
  }

  /** From one year to the next a date falls one or two weekdays later. */
  lemma NextYearDow(year: int, month: int)
    requires 1 <= month <= 12 && month != 2
    ensures var shift := (DayOfWeek(year + 1, month, 29) - DayOfWeek(year, month, 29)) % 7;
            shift == 1 || shift == 2
  {
    YearLength(year);
    var days := DayNumber(year + 1, month, 29) - DayNumber(year, month, 29);
    assert days == 365 + if month > 2 then LeapDay(year + 1) else LeapDay(year);
    LaterWeekday(DayNumber(year, month, 29) + 4, days);
  }

  lemma LaterWeekday(n: int, days: int)
    requires days == 365 || days == 366
    ensures ((n + days) % 7 - n % 7) % 7 == days - 364
  {}

  /** A month other than February has a fifth `dow` in one of the next seven years: the weekday of
      its 29th or 30th advances by one or two a year, so it cannot step over `dow`.
  */
  lemma {:induction false} FifthRecurs(month: int, dow: int, year: int, k: nat) returns (y: int, d: int)
    requires 1 <= month <= 12 && month != 2 && 0 <= dow <= 6
    requires (dow - DayOfWeek(year, month, 29)) % 7 == k
    ensures year <= y <= year + (if k == 0 then 0 else k - 1) && ValidDate(y, month, d) && 29 <= d <= 30
    ensures DayOfWeek(y, month, d) == dow
    decreases k
  {
    if k <= 1 {
      y, d := year, 29 + k;
      SameMonthDow(year, month, 29, d);
    } else {
      NextYearDow(year, month);
      y, d := FifthRecurs(month, dow, year + 1, (dow - DayOfWeek(year + 1, month, 29)) % 7);
    }
  }

  // ---- The theorem ----

  lemma MatchByDom(cron: CronPattern, start: Wall, w: Wall)
    requires WellFormed(cron) && ValidWall(w) && w.month in cron.month.values
    requires DomMatches(cron, w.day, DayOfWeek(w.year, w.month, w.day), DaysInMonth(w.year, w.month))
    requires cron.dowUnrestricted || !cron.domUnrestricted
    ensures MatchInHorizon(cron, start)
  {
    var leap := LeapYearSoon(start.year);
    var d := DomRecurs(cron, w.year, w.month, w.day, leap);
    DateByDom(cron, leap, w.month, d);
    MatchOnDate(cron, start, leap, w.month, d);
  }

  lemma DateByDom(cron: CronPattern, year: int, month: int, day: int)
    requires WellFormed(cron) && (cron.dowUnrestricted || !cron.domUnrestricted)
    requires DomMatches(cron, day, DayOfWeek(year, month, day), DaysInMonth(year, month))
    ensures DateMatches(cron, year, month, day)
  {}

  lemma DateByDow(cron: CronPattern, year: int, month: int, day: int)
    requires WellFormed(cron) && !cron.dowUnrestricted && ValidDate(year, month, day)
    requires DowMatches(cron, day, DayOfWeek(year, month, day), DaysInMonth(year, month))
    ensures DateMatches(cron, year, month, day)
  {}

  lemma MatchByDow(cron: CronPattern, start: Wall, month: int)
    requires WellFormed(cron) && !cron.dowUnrestricted && month in cron.month.values
    requires EveryMonth(cron)
    ensures MatchInHorizon(cron, start)
  {
    var d := DowRecurs(cron, start.year + 1, month);
    DateByDow(cron, start.year + 1, month, d);
    MatchOnDate(cron, start, start.year + 1, month, d);
  }

  lemma MatchByFifth(cron: CronPattern, start: Wall, month: int, dow: int)
    requires WellFormed(cron) && !cron.dowUnrestricted && month in cron.month.values && month != 2
    requires (dow, 5) in cron.dowNth
    ensures MatchInHorizon(cron, start)
  {
    var y, d := FifthRecurs(month, dow, start.year + 1, (dow - DayOfWeek(start.year + 1, month, 29)) % 7);
    var i :| 0 <= i < |cron.dowNth| && cron.dowNth[i] == (dow, 5);
    assert DowMatches(cron, d, dow, DaysInMonth(y, month));
    DateByDow(cron, y, month, d);
    MatchOnDate(cron, start, y, month, d);
  }

  /** A February day the day-of-month field can name. */
  lemma FebruaryByDom(cron: CronPattern) returns (w: Wall)
    requires WellFormed(cron) && !NoDomInFebruary(cron)
    ensures ValidWall(w) && w.month == 2
    ensures DomMatches(cron, w.day, DayOfWeek(w.year, w.month, w.day), DaysInMonth(w.year, w.month))
  {
    var d;
    if cron.domLast {
      d := 29;
    } else if cron.domLastWeekday {
      d := NearestIn(2000, 2, 29);
    } else if exists x :: x in cron.dom.values && x <= 29 {
      d :| d in cron.dom.values && d <= 29;
    } else {
      var i :| 0 <= i < |cron.domNearestWeekday| && cron.domNearestWeekday[i] <= 29;
      assert cron.domNearestWeekday[i] in cron.domNearestWeekday;
      d := NearestIn(2000, 2, cron.domNearestWeekday[i]);
    }
    w := Wall(2000, 2, d, 0, 0, 0);
  }

  /** From every start, a pattern that ever matches does so within the ten years searched. */
  lemma HorizonIsEnough(cron: CronPattern, start: Wall)
    requires WellFormed(cron) && SomeMatch(cron) && !RareLeapDay(cron)
    ensures MatchInHorizon(cron, start)
  {
    var w :| ValidWall(w) && Matches(cron, w);
    var dow := DayOfWeek(w.year, w.month, w.day);
    var length := DaysInMonth(w.year, w.month);
    if cron.dowUnrestricted {
      MatchByDom(cron, start, w);
    } else if EveryMonth(cron) {
      MatchByDow(cron, start, w.month);
    } else if !cron.domUnrestricted && DomMatches(cron, w.day, dow, length) {
      MatchByDom(cron, start, w);
    } else if m :| m in cron.month.values && m != 2 {
      assert DowMatches(cron, w.day, dow, length);
      MatchByFifth(cron, start, m, dow);
    } else {
      var v := FebruaryByDom(cron);
      MatchByDom(cron, start, v);
    }
  }

  // ---- The exception is real ----

  /** `0 0 * 2 1#5`: midnight of the fifth Monday of February. */
  const FIFTH_MONDAY_OF_FEBRUARY := CronPattern(
    CronField({0}, [0]), CronField({0}, [0]), CronField({0}, [0]),
    CronField(set d | 1 <= d <= 31, seq(31, i requires 0 <= i => i + 1)),
    CronField({2}, [2]), CronField({}, []),
    false, false, [], {}, [(1, 5)], false, false, true, false)

  /** It matches in 2044, and from the start of 2025 the ten years searched contain no match. */
  lemma HorizonFailsForRareLeapDay()
    ensures WellFormed(FIFTH_MONDAY_OF_FEBRUARY) && RareLeapDay(FIFTH_MONDAY_OF_FEBRUARY)
    ensures Matches(FIFTH_MONDAY_OF_FEBRUARY, Wall(2044, 2, 29, 0, 0, 0))
    ensures !MatchInHorizon(FIFTH_MONDAY_OF_FEBRUARY, Wall(2025, 1, 1, 0, 0, 0))
  {
    var cron := FIFTH_MONDAY_OF_FEBRUARY;
    forall v | 1 <= v <= 31 ensures v in cron.dom.sorted {
      assert cron.dom.sorted[v - 1] == v;
    }
    assert cron.dowNth[0] == (DayOfWeek(2044, 2, 29), (29 + 6) / 7);
    forall w | ValidWall(w) && w.year in {2025, 2026, 2027, 2028, 2029, 2030, 2031, 2032, 2033, 2034, 2035}
      ensures !Matches(cron, w)
    {
    }
  }
}
