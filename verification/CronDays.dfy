/** Parsed cron patterns and the rule that decides which days they match. */
module CronDays {
  import opened Sequences
  import opened Calendar

  /** The values of one field, as a set and in ascending order. */
  datatype CronField = CronField(values: set<int>, sorted: seq<int>)

  datatype CronPattern = CronPattern(
    second: CronField, minute: CronField, hour: CronField,
    dom: CronField, month: CronField, dow: CronField,
    domLast: bool,                  // written L
    domLastWeekday: bool,           // written LW
    domNearestWeekday: seq<int>,    // each n of an entry nW
    dowLast: set<int>,              // each d of an entry dL
    dowNth: seq<(int, int)>,        // each (d, n) of an entry d#n
    hasSeconds: bool, wildcardTime: bool,
    domUnrestricted: bool, dowUnrestricted: bool)

  ghost predicate FieldIn(f: CronField, min: int, max: int) {
    && Ascending(f.sorted)
    && (forall v :: v in f.values <==> v in f.sorted)
    && (forall v :: v in f.values ==> min <= v <= max)
  }

  /** What the parser guarantees about an accepted pattern. */
  ghost predicate WellFormed(cron: CronPattern) {
    && FieldIn(cron.second, 0, 59) && |cron.second.sorted| > 0
    && FieldIn(cron.minute, 0, 59) && |cron.minute.sorted| > 0
    && FieldIn(cron.hour, 0, 23) && |cron.hour.sorted| > 0
    && FieldIn(cron.month, 1, 12) && |cron.month.sorted| > 0
    && FieldIn(cron.dom, 1, 31)
    && FieldIn(cron.dow, 0, 6)
    && (forall n :: n in cron.domNearestWeekday ==> 1 <= n <= 31)
    && (forall d :: d in cron.dowLast ==> 0 <= d <= 6)
    && (forall p :: p in cron.dowNth ==> 0 <= p.0 <= 6 && 1 <= p.1 <= 5)
    && (cron.domUnrestricted <==> forall d :: 1 <= d <= 31 ==> d in cron.dom.values)
    && (cron.dowUnrestricted ==> forall d :: 0 <= d <= 6 ==> d in cron.dow.values)
    && (!cron.hasSeconds ==> cron.second.values == {0})
  }

  /** The day a '<n>W' entry stands for: day n itself, or its neighbour when n falls on a weekend, or the
      Monday or Friday on the other side when that neighbour belongs to another month.
  */
  function NearestWeekday(n: int, dowOfN: int, monthLength: int): int {
    if 1 <= dowOfN <= 5 then n
    else if dowOfN == 6 then (if n > 1 then n - 1 else n + 2)
    else if n < monthLength then n + 1 else n - 2
  }

  /** Day of week of day `n`, given that `day` of the same month falls on `dayOfWeek`. */
  function DowOf(n: int, day: int, dayOfWeek: int): int {
    (dayOfWeek + n - day) % 7
  }

  predicate DomMatches(cron: CronPattern, day: int, dayOfWeek: int, monthLength: int) {
    || day in cron.dom.values
    || (cron.domLast && day == monthLength)
    || (cron.domLastWeekday &&
        day == NearestWeekday(monthLength, DowOf(monthLength, day, dayOfWeek), monthLength))
    || exists i :: 0 <= i < |cron.domNearestWeekday| &&
         var n := cron.domNearestWeekday[i];
         n <= monthLength && NearestWeekday(n, DowOf(n, day, dayOfWeek), monthLength) == day
  }

  predicate DowMatches(cron: CronPattern, day: int, dayOfWeek: int, monthLength: int) {
    || dayOfWeek in cron.dow.values
    || (dayOfWeek in cron.dowLast && day + 7 > monthLength)
    || exists i :: 0 <= i < |cron.dowNth| && cron.dowNth[i] == (dayOfWeek, (day + 6) / 7)
  }

  /** Two restricted day fields are alternatives; an unrestricted one leaves the decision to the other. */
  predicate DayMatches(cron: CronPattern, day: int, dayOfWeek: int, monthLength: int) {
    var domMatch := DomMatches(cron, day, dayOfWeek, monthLength);
    var dowMatch := DowMatches(cron, day, dayOfWeek, monthLength);
    if !cron.domUnrestricted && !cron.dowUnrestricted then domMatch || dowMatch
    else domMatch && dowMatch
  }

  predicate DateMatches(cron: CronPattern, year: int, month: int, day: int) {
    DayMatches(cron, day, DayOfWeek(year, month, day), DaysInMonth(year, month))
  }

  /** The pattern matches the wall time. */
  predicate Matches(cron: CronPattern, w: Wall) {
    && w.month in cron.month.values
    && DateMatches(cron, w.year, w.month, w.day)
    && w.hour in cron.hour.values
    && w.minute in cron.minute.values
    && w.second in cron.second.values
  }

  // ---- What the Quartz modifiers mean ----

  predicate IsWeekday(dow: int) { 1 <= dow <= 5 }

  function Distance(a: int, b: int): int { if a < b then b - a else a - b }

  /** '<n>W' names a weekday of the month strictly nearer to n than any other weekday of the month. */
  lemma NearestWeekdayIsNearest(n: int, day: int, dayOfWeek: int, monthLength: int)
    requires 1 <= n <= monthLength && 28 <= monthLength
    ensures var r := NearestWeekday(n, DowOf(n, day, dayOfWeek), monthLength);
            && 1 <= r <= monthLength && IsWeekday(DowOf(r, day, dayOfWeek))
            && forall d :: 1 <= d <= monthLength && d != r && IsWeekday(DowOf(d, day, dayOfWeek))
                 ==> Distance(r, n) < Distance(d, n)
  {
    var r := NearestWeekday(n, DowOf(n, day, dayOfWeek), monthLength);
    ShiftDow(n, r, day, dayOfWeek);
    forall d | 1 <= d <= monthLength && d != r && IsWeekday(DowOf(d, day, dayOfWeek))
      ensures Distance(r, n) < Distance(d, n)
    {
      ShiftDow(n, d, day, dayOfWeek);
    }
  }

  lemma ShiftDow(a: int, b: int, day: int, dayOfWeek: int)
    ensures DowOf(b, day, dayOfWeek) == (DowOf(a, day, dayOfWeek) + (b - a)) % 7
  {}

  /** LW picks a weekday after which the month has only Saturdays and Sundays. */
  lemma LastWeekdayIsLast(day: int, dayOfWeek: int, monthLength: int)
    requires 28 <= monthLength
    ensures var r := NearestWeekday(monthLength, DowOf(monthLength, day, dayOfWeek), monthLength);
            && 1 <= r <= monthLength && IsWeekday(DowOf(r, day, dayOfWeek))
            && forall d :: r < d <= monthLength ==> !IsWeekday(DowOf(d, day, dayOfWeek))
  {
    var r := NearestWeekday(monthLength, DowOf(monthLength, day, dayOfWeek), monthLength);
    ShiftDow(monthLength, r, day, dayOfWeek);
    forall d | r < d <= monthLength
      ensures !IsWeekday(DowOf(d, day, dayOfWeek))
    {
      ShiftDow(monthLength, d, day, dayOfWeek);
    }
  }

  /** How many days of the month up to `upTo` fall on weekday `dow`. */
  ghost function CountDow(upTo: nat, dow: int, day: int, dayOfWeek: int): nat {
    if upTo == 0 then 0
    else CountDow(upTo - 1, dow, day, dayOfWeek) + if DowOf(upTo, day, dayOfWeek) == dow then 1 else 0
  }

  /** '<d>#<n>' picks the nth such weekday: ceil(day / 7) counts the days of the month up to `day` on its weekday. */
  lemma {:induction false} NthWeekdayCounts(day: nat, dayOfWeek: int)
    requires 1 <= day && 0 <= dayOfWeek <= 6
    ensures CountDow(day, dayOfWeek, day, dayOfWeek) == (day + 6) / 7
  {
    CountBack(day, day, dayOfWeek);
  }

  lemma SameDow(n: int, day: int, dayOfWeek: int)
    requires 0 <= dayOfWeek <= 6
    ensures DowOf(n, day, dayOfWeek) == dayOfWeek <==> (day - n) % 7 == 0
  {}

  lemma CountStep(upTo: int, day: int)
    ensures (upTo + 6 - (day + 6) % 7) / 7 ==
            (upTo + 5 - (day + 6) % 7) / 7 + if (day - upTo) % 7 == 0 then 1 else 0
  {
    var k := (upTo + 6 - (day + 6) % 7) / 7;
    var r := (upTo + 6 - (day + 6) % 7) % 7;
    assert upTo - day == 7 * (k - (day + 6) / 7) + r;
  }

  lemma {:induction false} CountBack(upTo: nat, day: nat, dayOfWeek: int)
    requires upTo <= day && 0 <= dayOfWeek <= 6
    ensures CountDow(upTo, dayOfWeek, day, dayOfWeek) == (upTo + 6 - (day + 6) % 7) / 7
  {
    hide DowOf;
    if upTo > 0 {
      CountBack(upTo - 1, day, dayOfWeek);
      SameDow(upTo, day, dayOfWeek);
      CountStep(upTo, day);
    }
  }

  /** '<d>L' picks the last such weekday: no later day of the month falls on the same weekday. */
  lemma LastDowIsLast(day: int, dayOfWeek: int, monthLength: int)
    requires 0 <= dayOfWeek <= 6
    ensures day + 7 > monthLength <==> forall d :: day < d <= monthLength ==> DowOf(d, day, dayOfWeek) != dayOfWeek
  {
    if day + 7 <= monthLength {
      assert DowOf(day + 7, day, dayOfWeek) == dayOfWeek;
    }
  }
}
