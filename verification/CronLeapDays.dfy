/** Exactly when ten years of search are enough: the patterns that can only match a 29 February are decided by
    the weekdays leap days fall on.
 */
module CronLeapDays {
  import opened Calendar
  import opened CronDays
  import opened CronWalker
  import opened CronHorizon

  /** The pattern names the fifth such weekday of the month. */
  ghost predicate Fifth(cron: CronPattern, dow: int) {
    (dow, 5) in cron.dowNth
  }

  /** Leap days step back two weekdays every four years, and stand alone in ten years next to a century that is no
      leap year, on one of four weekdays.
  */
  ghost predicate EnoughFifths(cron: CronPattern) {
    && Fifth(cron, 1) && Fifth(cron, 3) && Fifth(cron, 5) && Fifth(cron, 6)
    && (Fifth(cron, 2) || (Fifth(cron, 0) && Fifth(cron, 4)))
  }

  // ---- Weekdays of leap days ----

  lemma FourYearsLater(leap: int)
    requires IsLeap(leap) && IsLeap(leap + 4)
    ensures DayOfWeek(leap + 4, 2, 29) == (DayOfWeek(leap, 2, 29) + 5) % 7
  {
    LeapQuarters(leap);
    var n := DayNumber(leap, 2, 29) + 4;
    assert DayNumber(leap + 4, 2, 29) + 4 == n + 1461;
    Shift1461(n);
  }

  lemma Shift1461(n: int)
    ensures (n + 1461) % 7 == (n % 7 + 5) % 7
  {}

  lemma LeapQuarters(leap: int)
    requires IsLeap(leap) && IsLeap(leap + 4)
    ensures DayFromYear(leap + 4) == DayFromYear(leap) + 1461
  {
    var q := leap / 4;
    assert leap == 4 * q;
    assert (leap - 1969) / 4 == q - 493 && (leap + 4 - 1969) / 4 == q - 492;
    SameCentury(leap);
  }

  lemma SameCentury(leap: int)
    requires IsLeap(leap)
    ensures (leap + 4 - 1901) / 100 - (leap + 4 - 1601) / 400 == (leap - 1901) / 100 - (leap - 1601) / 400
  {
    var c, h, r := LeapParts(leap);
    CenturyCounts(c, h, r);
  }

  lemma LeapParts(leap: int) returns (c: int, h: int, r: int)
    requires IsLeap(leap)
    ensures leap == 400 * c + r && 0 <= r <= 396 && 100 * h <= r <= 100 * h + 96 && (r == 100 * h ==> r == 0)
  {
    c, r := leap / 400, leap % 400;
    h := r / 100;
    var q := leap / 4;
    assert leap == 4 * q && r == 4 * (q - 100 * c);
    assert r == 100 * h ==> leap == 100 * (4 * c + h);
  }

  lemma CenturyCounts(c: int, h: int, r: int)
    requires 0 <= r <= 396 && 100 * h <= r <= 100 * h + 96
    ensures (400 * c + r + 4 - 1901) / 100 == 4 * c + h - 19
    ensures (400 * c + r - 1901) / 100 == 4 * c + h - (if r == 100 * h then 20 else 19)
    ensures (400 * c + r + 4 - 1601) / 400 == c - 4
    ensures (400 * c + r - 1601) / 400 == c - (if r == 0 then 5 else 4)
  {}

  lemma EarlyWeekdays()
    ensures DayOfWeek(96, 2, 29) == 3 && DayOfWeek(104, 2, 29) == 5 && DayOfWeek(196, 2, 29) == 1
    ensures DayOfWeek(204, 2, 29) == 3 && DayOfWeek(296, 2, 29) == 6 && DayOfWeek(304, 2, 29) == 1
  {}

  lemma CenturyWeekdays(k: int)
    ensures DayOfWeek(400 * k + 96, 2, 29) == 3 && DayOfWeek(400 * k + 104, 2, 29) == 5
    ensures DayOfWeek(400 * k + 196, 2, 29) == 1 && DayOfWeek(400 * k + 204, 2, 29) == 3
    ensures DayOfWeek(400 * k + 296, 2, 29) == 6 && DayOfWeek(400 * k + 304, 2, 29) == 1
  {
    hide DayOfWeek;
    EarlyWeekdays();
    FourCenturies(k, 96);
    FourCenturies(k, 104);
    FourCenturies(k, 196);
    FourCenturies(k, 204);
    FourCenturies(k, 296);
    FourCenturies(k, 304);
  }

  /** The calendar repeats every 400 years, which are whole weeks. */
  lemma FourCenturies(k: int, r: int)
    requires 0 <= r < 400
    ensures DayOfWeek(400 * k + r, 2, 29) == DayOfWeek(r, 2, 29)
  {
    var y := 400 * k + r;
    assert (y - 1969) / 4 == 100 * k + (r - 1969) / 4;
    assert (y - 1901) / 100 == 4 * k + (r - 1901) / 100;
    assert (y - 1601) / 400 == k + (r - 1601) / 400;
    assert DayNumber(y, 2, 29) + 4 == 7 * (20871 * k) + (DayNumber(r, 2, 29) + 4);
    WholeWeeks(20871 * k, DayNumber(r, 2, 29) + 4);
  }

  lemma WholeWeeks(weeks: int, n: int)
    ensures (7 * weeks + n) % 7 == n % 7
  {}

  /** The leap days around a century that is no leap year. */
  lemma NearCentury(century: int)
    requires century % 100 == 0 && century % 400 != 0
    ensures DayOfWeek(century - 4, 2, 29) in {1, 3, 6} && DayOfWeek(century + 4, 2, 29) in {1, 3, 5}
  {
    var k, r := century / 400, century % 400;
    assert century == 400 * k + r && (r == 100 || r == 200 || r == 300) by { Hundreds(century, k, r); }
    CenturyWeekdays(k);
  }

  lemma Hundreds(century: int, k: int, r: int)
    requires century % 100 == 0 && century % 400 != 0 && k == century / 400 && r == century % 400
    ensures century == 400 * k + r && (r == 100 || r == 200 || r == 300)
  {
    var h := century / 100;
    assert century == 100 * h;
    assert r == 100 * (h - 4 * k) && 0 <= r < 400;
  }

  // ---- Enough fifths ----

  lemma LeapDayMatches(cron: CronPattern, start: Wall, leap: int)
    requires WellFormed(cron) && 2 in cron.month.values && !cron.dowUnrestricted
    requires IsLeap(leap) && Fifth(cron, DayOfWeek(leap, 2, 29)) && start.year < leap <= start.year + MAX_SEARCH_YEARS
    ensures MatchInHorizon(cron, start)
  {
    var dow := DayOfWeek(leap, 2, 29);
    var i :| 0 <= i < |cron.dowNth| && cron.dowNth[i] == (dow, 5);
    assert DowMatches(cron, 29, dow, 29);
    DateByDow(cron, leap, 2, 29);
    MatchOnDate(cron, start, leap, 2, 29);
  }

  lemma FifthsSuffice(cron: CronPattern, start: Wall)
    requires WellFormed(cron) && 2 in cron.month.values && !cron.dowUnrestricted && EnoughFifths(cron)
    ensures MatchInHorizon(cron, start)
  {
    var leap := FifthLeapDay(cron, start.year);
    LeapDayMatches(cron, start, leap);
  }

  lemma FifthLeapDay(cron: CronPattern, year: int) returns (leap: int)
    requires EnoughFifths(cron)
    ensures year < leap <= year + 8 && IsLeap(leap) && Fifth(cron, DayOfWeek(leap, 2, 29))
  {
    hide IsLeap, DayOfWeek, Fifth;
    var f := (year / 4 + 1) * 4;
    assert year < f <= year + 4 && f % 4 == 0;
    NotLeap(f);
    NotLeap(f + 4);
    if !IsLeap(f) {
      leap := f + 4;
      NearCentury(f);
    } else if !IsLeap(f + 4) {
      leap := f;
      NearCentury(f + 4);
    } else {
      FourYearsLater(f);
      WeekdayRange(f);
      leap := if Fifth(cron, DayOfWeek(f, 2, 29)) then f else f + 4;
    }
  }

  lemma NotLeap(f: int)
    requires f % 4 == 0
    ensures !IsLeap(f) ==> f % 100 == 0 && f % 400 != 0 && IsLeap(f + 4)
    ensures (f + 4) % 4 == 0
  {}

  lemma WeekdayRange(year: int)
    ensures 0 <= DayOfWeek(year, 2, 29) <= 6
  {}

  // ---- Too few fifths ----

  /** Such a pattern matches nothing but leap days on one of its fifth weekdays. */
  lemma RareMatch(cron: CronPattern, w: Wall)
    requires WellFormed(cron) && RareLeapDay(cron) && ValidWall(w) && Matches(cron, w)
    ensures w.month == 2 && w.day == 29 && IsLeap(w.year) && Fifth(cron, DayOfWeek(w.year, 2, 29))
  {
    var dow, length := DayOfWeek(w.year, w.month, w.day), DaysInMonth(w.year, w.month);
    assert w.month == 2;
    assert cron.dowUnrestricted ==> 0 in cron.dow.values;
    if !cron.domUnrestricted { NotByDom(cron, w.day, dow, length); }
    assert DowMatches(cron, w.day, dow, length);
    var i :| 0 <= i < |cron.dowNth| && cron.dowNth[i] == (dow, (w.day + 6) / 7);
    assert cron.dowNth[i] in cron.dowNth && cron.dowNth[i].1 == 5;
  }

  lemma NotByDom(cron: CronPattern, day: int, dow: int, length: int)
    requires NoDomInFebruary(cron) && day <= length <= 29
    ensures !DomMatches(cron, day, dow, length)
  {
    forall i | 0 <= i < |cron.domNearestWeekday| ensures cron.domNearestWeekday[i] > length {
      assert cron.domNearestWeekday[i] in cron.domNearestWeekday;
    }
  }

  /** From the first of March of `year`, only the leap days listed lie within the horizon. */
  lemma NothingFrom(cron: CronPattern, year: int)
    requires WellFormed(cron) && RareLeapDay(cron)
    requires forall y :: year < y <= year + MAX_SEARCH_YEARS && IsLeap(y) ==> !Fifth(cron, DayOfWeek(y, 2, 29))
    ensures !MatchInHorizon(cron, Wall(year, 3, 1, 0, 0, 0))
  {
    hide Matches, DayOfWeek;
    forall w | ValidWall(w) && !Before(w, Wall(year, 3, 1, 0, 0, 0)) && w.year <= year + MAX_SEARCH_YEARS ensures !Matches(cron, w) {
      if Matches(cron, w) { RareMatch(cron, w); }
    }
  }

  lemma LeapYearsAre(y: int)
    ensures 2020 < y <= 2030 && IsLeap(y) ==> y == 2024 || y == 2028
    ensures 2024 < y <= 2034 && IsLeap(y) ==> y == 2028 || y == 2032
    ensures 2092 < y <= 2102 && IsLeap(y) ==> y == 2096
    ensures 2096 < y <= 2106 && IsLeap(y) ==> y == 2104
    ensures 2192 < y <= 2202 && IsLeap(y) ==> y == 2196
    ensures 2292 < y <= 2302 && IsLeap(y) ==> y == 2296
  {}

  lemma TheirWeekdays()
    ensures DayOfWeek(2024, 2, 29) == 4 && DayOfWeek(2028, 2, 29) == 2 && DayOfWeek(2032, 2, 29) == 0
    ensures DayOfWeek(2096, 2, 29) == 3 && DayOfWeek(2104, 2, 29) == 5 && DayOfWeek(2196, 2, 29) == 1 && DayOfWeek(2296, 2, 29) == 6
  {
    CenturyWeekdays(5);
    assert DayOfWeek(2024, 2, 29) == 4;
    hide DayOfWeek;
    FourYearsLater(2024);
    FourYearsLater(2028);
  }

  /** A missing weekday leaves ten years without a match. */
  lemma TooFewFifths(cron: CronPattern) returns (year: int)
    requires WellFormed(cron) && RareLeapDay(cron) && !EnoughFifths(cron)
    ensures !MatchInHorizon(cron, Wall(year, 3, 1, 0, 0, 0))
  {
    hide IsLeap, DayOfWeek, Fifth;
    TheirWeekdays();
    year :=
      if !Fifth(cron, 3) then 2092 else if !Fifth(cron, 5) then 2096 else if !Fifth(cron, 1) then 2192
      else if !Fifth(cron, 6) then 2292 else if !Fifth(cron, 0) then 2024 else 2020;
    forall y | year < y <= year + MAX_SEARCH_YEARS && IsLeap(y) ensures !Fifth(cron, DayOfWeek(y, 2, 29)) {
      LeapYearsAre(y);
    }
    NothingFrom(cron, year);
  }

  // ---- The theorem ----

  /** A pattern that ever matches is found from every start exactly if it is not confined to leap days, or names
      enough of the weekdays they fall on.
  */
  lemma HorizonIsEnoughExactly(cron: CronPattern)
    requires WellFormed(cron) && SomeMatch(cron)
    ensures (forall start :: ValidWall(start) ==> MatchInHorizon(cron, start)) <==> !RareLeapDay(cron) || EnoughFifths(cron)
  {
    hide MatchInHorizon, RareLeapDay, EnoughFifths;
    if !RareLeapDay(cron) {
      forall start ensures MatchInHorizon(cron, start) { HorizonIsEnough(cron, start); }
    } else if EnoughFifths(cron) {
      OnlyFebruary(cron);
      forall start ensures MatchInHorizon(cron, start) { FifthsSuffice(cron, start); }
    } else {
      var year := TooFewFifths(cron);
      assert ValidWall(Wall(year, 3, 1, 0, 0, 0));
    }
  }

  lemma OnlyFebruary(cron: CronPattern)
    requires WellFormed(cron) && RareLeapDay(cron)
    ensures 2 in cron.month.values && !cron.dowUnrestricted
  {
    assert cron.month.sorted[0] in cron.month.sorted;
    assert cron.dowUnrestricted ==> 0 in cron.dow.values;
  }
}
