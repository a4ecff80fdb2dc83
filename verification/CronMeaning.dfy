/** Which wall times a pattern matches, told from the calendar: the days of a month, their weekdays and their order. */
module CronMeaning {
  import opened Calendar
  import opened CronDays

  // ---- Days of a month ----

  ghost predicate LastOfMonth(year: int, month: int, day: int) {
    ValidDate(year, month, day) && forall d :: ValidDate(year, month, d) ==> d <= day
  }

  /** A Monday to Friday of the month. */
  ghost predicate Workday(year: int, month: int, day: int) {
    ValidDate(year, month, day) && 1 <= DayOfWeek(year, month, day) <= 5
  }

  ghost predicate LastWorkday(year: int, month: int, day: int) {
    Workday(year, month, day) && forall d :: Workday(year, month, d) ==> d <= day
  }

  function Apart(a: int, b: int): int {
    if a < b then b - a else a - b
  }

  /** Day `n` exists and `day` is the workday of its month nearest to it. */
  ghost predicate NearestWorkday(year: int, month: int, n: int, day: int) {
    && ValidDate(year, month, n) && Workday(year, month, day)
    && forall d :: Workday(year, month, d) && d != day ==> Apart(n, day) < Apart(n, d)
  }

  /** The weekday of `day` does not come again in its month. */
  ghost predicate LastOfItsWeekday(year: int, month: int, day: int) {
    forall d :: ValidDate(year, month, d) && d > day ==> DayOfWeek(year, month, d) != DayOfWeek(year, month, day)
  }

  /** Days of the month up to `day` on a weekday. */
  ghost function SuchDays(year: int, month: int, day: nat, dow: int): nat {
    if day == 0 then 0 else SuchDays(year, month, day - 1, dow) + if DayOfWeek(year, month, day) == dow then 1 else 0
  }

  // ---- What the day fields allow ----

  /** A listed day, the last day for L, the last workday for LW, or the workday nearest to n for nW. */
  ghost predicate DomAllows(cron: CronPattern, year: int, month: int, day: int) {
    || day in cron.dom.values
    || (cron.domLast && LastOfMonth(year, month, day))
    || (cron.domLastWeekday && LastWorkday(year, month, day))
    || exists n :: n in cron.domNearestWeekday && NearestWorkday(year, month, n, day)
  }

  /** A listed weekday, the last one of the month for dL, or the nth one for d#n. */
  ghost predicate DowAllows(cron: CronPattern, year: int, month: int, day: nat) {
    var dow := DayOfWeek(year, month, day);
    || dow in cron.dow.values
    || (dow in cron.dowLast && LastOfItsWeekday(year, month, day))
    || (dow, SuchDays(year, month, day, dow)) in cron.dowNth
  }

  lemma DowFromDay(year: int, month: int, day: int, d: int)
    ensures DowOf(d, day, DayOfWeek(year, month, day)) == DayOfWeek(year, month, d)
  {
    hide DayFromYear, DaysBeforeMonth;
    var n := DayNumber(year, month, day) + 4;
    assert DayNumber(year, month, d) + 4 == n + (d - day);
    ShiftMod(n, d - day);
  }

  lemma ShiftMod(n: int, k: int)
    ensures (n % 7 + k) % 7 == (n + k) % 7
  {}

  lemma MonthBounds(year: int, month: int)
    requires 1 <= month <= 12
    ensures 28 <= DaysInMonth(year, month) <= 31
    ensures forall d :: ValidDate(year, month, d) <==> 1 <= d <= DaysInMonth(year, month)
  {}

  lemma NearestIsNearest(year: int, month: int, n: int, day: int)
    requires ValidDate(year, month, n) && ValidDate(year, month, day)
    ensures var length := DaysInMonth(year, month);
      NearestWeekday(n, DowOf(n, day, DayOfWeek(year, month, day)), length) == day <==> NearestWorkday(year, month, n, day)
  {
    MonthBounds(year, month);
    var dow, length := DayOfWeek(year, month, day), DaysInMonth(year, month);
    var r := NearestWeekday(n, DowOf(n, day, dow), length);
    NearestWeekdayIsNearest(n, day, dow, length);
    forall d ensures DowOf(d, day, dow) == DayOfWeek(year, month, d) { DowFromDay(year, month, day, d); }
    hide DayOfWeek, DowOf, NearestWeekday, DaysInMonth;
    assert forall d :: Workday(year, month, d) <==> 1 <= d <= length && IsWeekday(DowOf(d, day, dow));
    assert NearestWorkday(year, month, n, r);
  }

  lemma LastWorkdayIsLast(year: int, month: int, day: int)
    requires ValidDate(year, month, day)
    ensures var length := DaysInMonth(year, month);
      day == NearestWeekday(length, DowOf(length, day, DayOfWeek(year, month, day)), length) <==> LastWorkday(year, month, day)
  {
    MonthBounds(year, month);
    var dow, length := DayOfWeek(year, month, day), DaysInMonth(year, month);
    var r := NearestWeekday(length, DowOf(length, day, dow), length);
    LastWeekdayIsLast(day, dow, length);
    forall d ensures DowOf(d, day, dow) == DayOfWeek(year, month, d) { DowFromDay(year, month, day, d); }
    hide DayOfWeek, DowOf, NearestWeekday, DaysInMonth;
    assert forall d :: Workday(year, month, d) <==> 1 <= d <= length && IsWeekday(DowOf(d, day, dow));
    assert LastWorkday(year, month, r);
  }

  lemma {:induction false} SameCount(year: int, month: int, day: int, upTo: nat, dow: int)
    ensures SuchDays(year, month, upTo, dow) == CountDow(upTo, dow, day, DayOfWeek(year, month, day))
  {
    if upTo > 0 {
      SameCount(year, month, day, upTo - 1, dow);
      DowFromDay(year, month, day, upTo);
    }
  }

  lemma LastIsLast(year: int, month: int, day: int)
    requires ValidDate(year, month, day)
    ensures day + 7 > DaysInMonth(year, month) <==> LastOfItsWeekday(year, month, day)
  {
    MonthBounds(year, month);
    LastDowIsLast(day, DayOfWeek(year, month, day), DaysInMonth(year, month));
    forall d ensures DowOf(d, day, DayOfWeek(year, month, day)) == DayOfWeek(year, month, d) { DowFromDay(year, month, day, d); }
    hide DayOfWeek, DowOf, DaysInMonth;
  }

  lemma LastDayIsLast(year: int, month: int, day: int)
    requires ValidDate(year, month, day)
    ensures day == DaysInMonth(year, month) <==> LastOfMonth(year, month, day)
  {
    MonthBounds(year, month);
    assert ValidDate(year, month, DaysInMonth(year, month));
    hide DaysInMonth;
  }

  lemma DomMeaning(cron: CronPattern, year: int, month: int, day: int)
    requires WellFormed(cron) && ValidDate(year, month, day)
    ensures DomMatches(cron, day, DayOfWeek(year, month, day), DaysInMonth(year, month)) <==> DomAllows(cron, year, month, day)
  {
    MonthBounds(year, month);
    LastWorkdayIsLast(year, month, day);
    forall n | ValidDate(year, month, n)
      ensures NearestWeekday(n, DowOf(n, day, DayOfWeek(year, month, day)), DaysInMonth(year, month)) == day <==> NearestWorkday(year, month, n, day)
    {
      NearestIsNearest(year, month, n, day);
    }
    LastDayIsLast(year, month, day);
    hide DayOfWeek, DowOf, DaysInMonth, NearestWeekday, NearestWorkday, LastWorkday, LastOfMonth;
    forall i | 0 <= i < |cron.domNearestWeekday| ensures cron.domNearestWeekday[i] in cron.domNearestWeekday && 1 <= cron.domNearestWeekday[i] {}
  }

  lemma DowMeaning(cron: CronPattern, year: int, month: int, day: int)
    requires WellFormed(cron) && ValidDate(year, month, day)
    ensures DowMatches(cron, day, DayOfWeek(year, month, day), DaysInMonth(year, month)) <==> DowAllows(cron, year, month, day)
  {
    LastIsLast(year, month, day);
    var dow := DayOfWeek(year, month, day);
    SameCount(year, month, day, day, dow);
    NthWeekdayCounts(day, dow);
    hide DayOfWeek, DaysInMonth, CountDow, SuchDays, WellFormed;
  }

  /** A pattern matches a wall time if its month, hour, minute and second are listed and its day fields allow the date:
      the one field that is restricted, or either of them if both are.
  */
  lemma MatchesByTheCalendar(cron: CronPattern, w: Wall)
    requires WellFormed(cron) && ValidWall(w)
    ensures Matches(cron, w) <==>
      && w.month in cron.month.values && w.hour in cron.hour.values && w.minute in cron.minute.values && w.second in cron.second.values
      && (if cron.dowUnrestricted then DomAllows(cron, w.year, w.month, w.day)
          else if cron.domUnrestricted then DowAllows(cron, w.year, w.month, w.day)
          else DomAllows(cron, w.year, w.month, w.day) || DowAllows(cron, w.year, w.month, w.day))
  {
    DomMeaning(cron, w.year, w.month, w.day);
    DowMeaning(cron, w.year, w.month, w.day);
    MonthBounds(w.year, w.month);
    assert 0 <= DayOfWeek(w.year, w.month, w.day) <= 6;
    hide DayOfWeek, DaysInMonth, DomMatches, DowMatches;
    assert cron.domUnrestricted ==> w.day in cron.dom.values;
    assert cron.dowUnrestricted ==> DayOfWeek(w.year, w.month, w.day) in cron.dow.values;
  }
}
