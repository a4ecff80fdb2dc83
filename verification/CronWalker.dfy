/** The field-by-field wall-clock walk: it visits the times a pattern matches in
    ascending order and hands each to a resolver, until one resolves.
 */
module CronWalker {
  import opened Calendar
  import opened CronDays
  import opened Wrappers
  import opened Sequences

  const MAX_SEARCH_YEARS := 10
  const MAX_SEARCH_STEPS := 200_000

  /** A run of the walker: the instant of the first time that resolves, or one of the two
      guards of the loop (the program reports both with the same error).
   */
  datatype SearchOutcome = Found(at: Wall, instant: int) | HorizonReached | StepsExhausted

  // ---- What the walk is meant to compute ----

  /** A wall time the pattern matches and the resolver accepts. */
  predicate Hit(cron: CronPattern, resolve: Wall -> Option<int>, w: Wall) {
    ValidWall(w) && Matches(cron, w) && resolve(w).Some?
  }

  /** No hit lies in the lexicographic interval [from, to). */
  ghost predicate NoHit(cron: CronPattern, resolve: Wall -> Option<int>, from: Wall, to: Wall) {
    forall w :: !Before(w, from) && Before(w, to) ==> !Hit(cron, resolve, w)
  }

  /** `w` is the least hit at or after `start`. */
  ghost predicate LeastHit(cron: CronPattern, resolve: Wall -> Option<int>, start: Wall, w: Wall) {
    Hit(cron, resolve, w) && !Before(w, start) && NoHit(cron, resolve, start, w)
  }

  /** No hit from `start` through the end of the last year searched. */
  ghost predicate NoHitInHorizon(cron: CronPattern, resolve: Wall -> Option<int>, start: Wall) {
    forall w :: !Before(w, start) && w.year <= start.year + MAX_SEARCH_YEARS ==> !Hit(cron, resolve, w)
  }

  /** A matching time in the horizon that the resolver turned down. */
  ghost predicate Rejected(cron: CronPattern, resolve: Wall -> Option<int>, start: Wall, w: Wall) {
    && ValidWall(w) && Matches(cron, w) && resolve(w).None?
    && !Before(w, start) && w.year <= start.year + MAX_SEARCH_YEARS
  }

  // ---- Skipping loses no match ----

  /** No time in [from, to) matches the pattern. */
  ghost predicate NoMatch(cron: CronPattern, from: Wall, to: Wall) {
    forall w :: ValidWall(w) && !Before(w, from) && Before(w, to) ==> !Matches(cron, w)
  }

  lemma Extend(cron: CronPattern, resolve: Wall -> Option<int>, start: Wall, cur: Wall, next: Wall)
    requires NoHit(cron, resolve, start, cur) && NoMatch(cron, cur, next)
    ensures NoHit(cron, resolve, start, next)
  {}

  /** The least listed value above `v`, as the program's `sorted.find`. */
  function NextIn(sorted: seq<int>, v: int): (r: Option<int>)
    ensures r.Some? ==> r.value in sorted && r.value > v
    ensures Ascending(sorted) && r.Some? ==> forall x :: x in sorted && x > v ==> r.value <= x
    ensures r.None? ==> forall x :: x in sorted ==> x <= v
  {
    if |sorted| == 0 then None
    else
      assert forall x :: x in sorted ==> x == sorted[0] || x in sorted[1..];
      if sorted[0] > v then Some(sorted[0]) else NextIn(sorted[1..], v)
  }

  lemma FirstIsLeast(f: CronField, min: int, max: int)
    requires FieldIn(f, min, max) && |f.sorted| > 0
    ensures f.sorted[0] in f.values && min <= f.sorted[0] <= max
    ensures forall v :: v in f.values ==> f.sorted[0] <= v
  {}

  /** No listed value lies strictly between `v` and the next one. */
  lemma NextSkipsNothing(f: CronField, min: int, max: int, v: int)
    requires FieldIn(f, min, max)
    ensures var n := NextIn(f.sorted, v);
            && (n.Some? ==> n.value in f.values && v < n.value && forall x :: v < x < n.value ==> x !in f.values)
            && (n.None? ==> forall x :: v < x ==> x !in f.values)
  {}

  // ---- The number of steps ----

  /** Steps the walk can still take on the current day before it resolves a time or leaves the day. */
  ghost function DaySteps(cron: CronPattern, hour: int, minute: int, second: int): nat {
    if hour !in cron.hour.values then (if NextIn(cron.hour.sorted, hour).Some? then 2 else 0)
    else if minute !in cron.minute.values then (if NextIn(cron.minute.sorted, minute).Some? then 1 else 3)
    else if second !in cron.second.values && NextIn(cron.second.sorted, second).None? then 4
    else 0
  }

  /** Day slots (32 a month) left until the end of the horizon. */
  ghost function DaySlots(endYear: int, year: int, month: int, day: int): int {
    ((endYear + 1 - year) * 12 + 12 - month) * 32 + 32 - day
  }

  ghost function StepsLeft(cron: CronPattern, endYear: int, w: Wall): int {
    3 * DaySlots(endYear, w.year, w.month, w.day) + DaySteps(cron, w.hour, w.minute, w.second)
  }

  /** From the start of a day at most two steps are needed. */
  lemma FreshDay(cron: CronPattern)
    requires WellFormed(cron)
    ensures DaySteps(cron, 0, 0, 0) <= 2
    ensures forall h :: h in cron.hour.values ==> DaySteps(cron, h, 0, 0) <= 1
    ensures forall h, m :: h in cron.hour.values && m in cron.minute.values ==> DaySteps(cron, h, m, 0) == 0
  {
    FirstIsLeast(cron.hour, 0, 23);
    FirstIsLeast(cron.minute, 0, 59);
    FirstIsLeast(cron.second, 0, 59);
  }

  /** Fields the walk may hold between steps; hour, minute and day may have just run over. */
  predicate Walking(w: Wall) {
    1 <= w.month <= 12 && 1 <= w.day <= 32 && 0 <= w.hour <= 24 && 0 <= w.minute <= 60 && 0 <= w.second < 60
  }

  /** A step that skips to `next`: it passes over no match and uses up at least one step. */
  ghost predicate GoodSkip(cron: CronPattern, endYear: int, cur: Wall, next: Wall) {
    Walking(next) && Before(cur, next) && NoMatch(cron, cur, next) && StepsLeft(cron, endYear, next) < StepsLeft(cron, endYear, cur)
  }

  lemma SkipMonths(cron: CronPattern, endYear: int, cur: Wall, next: Wall)
    requires WellFormed(cron) && Walking(cur) && cur.month !in cron.month.values
    requires var n := NextIn(cron.month.sorted, cur.month);
             next == if n.Some? then Wall(cur.year, n.value, 1, 0, 0, 0)
                     else Wall(cur.year + 1, cron.month.sorted[0], 1, 0, 0, 0)
    ensures GoodSkip(cron, endYear, cur, next)
  {
    FreshDay(cron);
    NextSkipsNothing(cron.month, 1, 12, cur.month);
    FirstIsLeast(cron.month, 1, 12);
  }

  lemma SkipToNextMonth(cron: CronPattern, endYear: int, cur: Wall, next: Wall)
    requires WellFormed(cron) && Walking(cur) && cur.day > DaysInMonth(cur.year, cur.month)
    requires next == if cur.month == 12 then Wall(cur.year + 1, 1, 1, 0, 0, 0)
                     else Wall(cur.year, cur.month + 1, 1, 0, 0, 0)
    ensures GoodSkip(cron, endYear, cur, next)
  {
    FreshDay(cron);
  }

  lemma SkipDay(cron: CronPattern, endYear: int, cur: Wall)
    requires WellFormed(cron) && Walking(cur) && cur.day <= DaysInMonth(cur.year, cur.month)
    requires !DateMatches(cron, cur.year, cur.month, cur.day)
    ensures GoodSkip(cron, endYear, cur, Wall(cur.year, cur.month, cur.day + 1, 0, 0, 0))
  {
    FreshDay(cron);
  }

  lemma SkipHours(cron: CronPattern, endYear: int, cur: Wall, next: Wall)
    requires WellFormed(cron) && Walking(cur) && cur.day <= DaysInMonth(cur.year, cur.month)
    requires cur.hour !in cron.hour.values
    requires var n := NextIn(cron.hour.sorted, cur.hour);
             next == if n.Some? then Wall(cur.year, cur.month, cur.day, n.value, 0, 0)
                     else Wall(cur.year, cur.month, cur.day + 1, 0, 0, 0)
    ensures GoodSkip(cron, endYear, cur, next)
  {
    FreshDay(cron);
    NextSkipsNothing(cron.hour, 0, 23, cur.hour);
  }

  lemma SkipMinutes(cron: CronPattern, endYear: int, cur: Wall, next: Wall)
    requires WellFormed(cron) && Walking(cur)
    requires cur.hour in cron.hour.values && cur.minute !in cron.minute.values
    requires var n := NextIn(cron.minute.sorted, cur.minute);
             next == if n.Some? then Wall(cur.year, cur.month, cur.day, cur.hour, n.value, 0)
                     else Wall(cur.year, cur.month, cur.day, cur.hour + 1, 0, 0)
    ensures GoodSkip(cron, endYear, cur, next)
  {
    FreshDay(cron);
    NextSkipsNothing(cron.minute, 0, 59, cur.minute);
  }

  lemma SkipRestOfMinute(cron: CronPattern, endYear: int, cur: Wall)
    requires WellFormed(cron) && Walking(cur)
    requires cur.hour in cron.hour.values && cur.minute in cron.minute.values
    requires cur.second !in cron.second.values && NextIn(cron.second.sorted, cur.second).None?
    ensures GoodSkip(cron, endYear, cur, Wall(cur.year, cur.month, cur.day, cur.hour, cur.minute + 1, 0))
  {
    FreshDay(cron);
    NextSkipsNothing(cron.second, 0, 59, cur.second);
  }

  /** Moving the second forward inside a matching minute passes over no match and costs no step. */
  lemma SkipSeconds(cron: CronPattern, endYear: int, cur: Wall, second: int)
    requires WellFormed(cron) && Walking(cur)
    requires cur.hour in cron.hour.values && cur.minute in cron.minute.values
    requires if cur.second in cron.second.values then second == cur.second
             else NextIn(cron.second.sorted, cur.second) == Some(second)
    ensures second in cron.second.values
    ensures NoMatch(cron, cur, cur.(second := second))
    ensures StepsLeft(cron, endYear, cur.(second := second)) == StepsLeft(cron, endYear, cur)
  {
    NextSkipsNothing(cron.second, 0, 59, cur.second);
  }

  /** True of the last listed second of a minute. */
  predicate LastSecond(cron: CronPattern, second: int) {
    NextIn(cron.second.sorted, second).None?
  }

  /** Advancing one second past a time that did not resolve costs at most four further steps, and
      none unless the minute is over.
  */
  lemma AdvanceSecond(cron: CronPattern, endYear: int, cur: Wall, next: Wall)
    requires WellFormed(cron) && Walking(cur) && ValidWall(next) && Before(cur, next)
    requires cur.hour in cron.hour.values && cur.minute in cron.minute.values
    requires cur.second < 59 ==> next == cur.(second := cur.second + 1)
    ensures StepsLeft(cron, endYear, next) <=
            StepsLeft(cron, endYear, cur) + if LastSecond(cron, cur.second) then 4 else 0
  {
    LaterSlots(endYear, cur, next);
    if cur.second < 59 {
      if !LastSecond(cron, cur.second) { StaysInMinute(cron, cur); }
    } else {
      NextSkipsNothing(cron.second, 0, 59, cur.second);
    }
  }

  lemma StaysInMinute(cron: CronPattern, cur: Wall)
    requires WellFormed(cron) && !LastSecond(cron, cur.second)
    requires cur.hour in cron.hour.values && cur.minute in cron.minute.values
    ensures DaySteps(cron, cur.hour, cur.minute, cur.second + 1) == 0
  {
    NextSkipsNothing(cron.second, 0, 59, cur.second);
    NextSkipsNothing(cron.second, 0, 59, cur.second + 1);
  }

  lemma LaterSlots(endYear: int, a: Wall, b: Wall)
    requires Walking(a) && Walking(b) && Before(a, b)
    ensures DaySlots(endYear, b.year, b.month, b.day) <= DaySlots(endYear, a.year, a.month, a.day)
  {}


  /** Times turned down by the resolver, and those of them that end their minute. */
  ghost predicate RejectedTimes(cron: CronPattern, resolve: Wall -> Option<int>, start: Wall,
                                rejected: set<Wall>, minuteEnds: set<Wall>)
  {
    && (forall w :: w in rejected ==> Rejected(cron, resolve, start, w))
    && minuteEnds <= rejected
    && (forall w :: w in minuteEnds ==> LastSecond(cron, w.second))
  }

  /** The walk never leaves its step budget before the resolver has turned down a very large number of times. */
  ghost predicate ManyRejections(cron: CronPattern, resolve: Wall -> Option<int>, start: Wall) {
    exists rejected: set<Wall>, minuteEnds: set<Wall> ::
      RejectedTimes(cron, resolve, start, rejected, minuteEnds) && |rejected| + 4 * |minuteEnds| >= 186_000
  }

  /** `next` is the successor of `w` among valid wall times. */
  ghost predicate IsNext(w: Wall, next: Wall) {
    && ValidWall(next) && Before(w, next)
    && (forall v :: ValidWall(v) && Before(v, next) ==> !Before(w, v))
    && (w.second < 59 ==> next == w.(second := w.second + 1))
  }

  method AddOneSecond(w: Wall) returns (next: Wall)
    requires ValidWall(w)
    ensures IsNext(w, next) && next == PlusOneSecond(w)
  {
    next := PlusOneSecond(w);
    PlusOneSecondIsNext(w, w);
    forall v | ValidWall(v) && Before(v, next)
      ensures !Before(w, v)
    {
      PlusOneSecondIsNext(w, v);
    }
    if w.second < 59 {
      SameMinute(w, next);
    }
  }

  lemma SameMinute(w: Wall, next: Wall)
    requires ValidWall(w) && w.second < 59 && ValidWall(next) && Seconds(next) == Seconds(w) + 1
    ensures next == w.(second := w.second + 1)
  {
    var v := w.(second := w.second + 1);
    assert Seconds(v) == Seconds(w) + 1;
    BeforeIsEarlier(next, v);
    BeforeIsEarlier(v, next);
  }

  /** One more time turned down: it is recorded once, and pays for the step that met it. */
  lemma Reject(cron: CronPattern, resolve: Wall -> Option<int>, start: Wall, endYear: int, w: Wall, next: Wall,
               rejected: set<Wall>, minuteEnds: set<Wall>) returns (rejected': set<Wall>, minuteEnds': set<Wall>)
    requires WellFormed(cron) && Rejected(cron, resolve, start, w) && IsNext(w, next)
    requires RejectedTimes(cron, resolve, start, rejected, minuteEnds)
    requires forall v :: v in rejected ==> Before(v, w)
    ensures RejectedTimes(cron, resolve, start, rejected', minuteEnds') && rejected' == rejected + {w}
    ensures forall v :: v in rejected' ==> Before(v, next)
    ensures StepsLeft(cron, endYear, next) + |rejected| + 4 * |minuteEnds| + 1 <=
            StepsLeft(cron, endYear, w) + |rejected'| + 4 * |minuteEnds'|
  {
    rejected' := rejected + {w};
    minuteEnds' := if LastSecond(cron, w.second) then minuteEnds + {w} else minuteEnds;
    AdvanceSecond(cron, endYear, w, next);
    assert w !in rejected && w !in minuteEnds;
  }

  lemma ExtendPast(cron: CronPattern, resolve: Wall -> Option<int>, start: Wall, w: Wall, next: Wall)
    requires ValidWall(w) && resolve(w).None? && IsNext(w, next)
    requires NoHit(cron, resolve, start, w)
    ensures NoHit(cron, resolve, start, next)
  {
    forall v | !Before(v, start) && Before(v, next)
      ensures !Hit(cron, resolve, v)
    {
      assert ValidWall(v) && !Before(v, w) ==> v == w;
    }
  }

  /** One pass through the field checks: either a field has no match here and the walk skips ahead,
      or every field matches (after moving the second forward).
  */
  datatype Check = Skip(next: Wall) | Candidate(w: Wall)

  /** Where a round of checks leads: past the first field without a match, or to a candidate. */
  function CheckOf(cron: CronPattern, cur: Wall): Check
    requires WellFormed(cron)
  {
    var Wall(year, month, day, hour, minute, second) := cur;
    if month !in cron.month.values then
      match NextIn(cron.month.sorted, month)
      case Some(m) => Skip(Wall(year, m, 1, 0, 0, 0))
      case None => Skip(Wall(year + 1, cron.month.sorted[0], 1, 0, 0, 0))
    else if day > DaysInMonth(year, month) then
      Skip(if month == 12 then Wall(year + 1, 1, 1, 0, 0, 0) else Wall(year, month + 1, 1, 0, 0, 0))
    else if !DateMatches(cron, year, month, day) then Skip(Wall(year, month, day + 1, 0, 0, 0))
    else if hour !in cron.hour.values then
      match NextIn(cron.hour.sorted, hour)
      case Some(h) => Skip(Wall(year, month, day, h, 0, 0))
      case None => Skip(Wall(year, month, day + 1, 0, 0, 0))
    else if minute !in cron.minute.values then
      match NextIn(cron.minute.sorted, minute)
      case Some(m) => Skip(Wall(year, month, day, hour, m, 0))
      case None => Skip(Wall(year, month, day, hour + 1, 0, 0))
    else if second in cron.second.values then Candidate(cur)
    else
      match NextIn(cron.second.sorted, second)
      case Some(s) => Candidate(cur.(second := s))
      case None => Skip(Wall(year, month, day, hour, minute + 1, 0))
  }

  /** A round of checks misses no match. */
  ghost predicate GoodCheck(cron: CronPattern, endYear: int, cur: Wall, check: Check) {
    match check
    case Skip(next) => GoodSkip(cron, endYear, cur, next)
    case Candidate(w) =>
      && ValidWall(w) && Matches(cron, w) && NoMatch(cron, cur, w) && !Before(w, cur) && w.year == cur.year
      && StepsLeft(cron, endYear, w) == StepsLeft(cron, endYear, cur)
  }

  lemma CheckIsGood(cron: CronPattern, endYear: int, cur: Wall)
    requires WellFormed(cron) && Walking(cur)
    ensures GoodCheck(cron, endYear, cur, CheckOf(cron, cur))
  {
    hide DayMatches, NoMatch, StepsLeft, GoodSkip, DaysInMonth, DateMatches, Matches;
    if cur.month in cron.month.values && cur.day <= DaysInMonth(cur.year, cur.month) && DateMatches(cron, cur.year, cur.month, cur.day) {
      TimeIsGood(cron, endYear, cur);
    } else {
      DateIsGood(cron, endYear, cur);
    }
  }

  lemma DateIsGood(cron: CronPattern, endYear: int, cur: Wall)
    requires WellFormed(cron) && Walking(cur)
    requires !(cur.month in cron.month.values && cur.day <= DaysInMonth(cur.year, cur.month) && DateMatches(cron, cur.year, cur.month, cur.day))
    ensures CheckOf(cron, cur).Skip? && GoodSkip(cron, endYear, cur, CheckOf(cron, cur).next)
  {
    hide DateMatches, GoodSkip, DaysInMonth;
    var check := CheckOf(cron, cur);
    if cur.month !in cron.month.values {
      SkipMonths(cron, endYear, cur, check.next);
    } else if cur.day > DaysInMonth(cur.year, cur.month) {
      SkipToNextMonth(cron, endYear, cur, check.next);
    } else {
      SkipDay(cron, endYear, cur);
    }
  }

  lemma TimeIsGood(cron: CronPattern, endYear: int, cur: Wall)
    requires WellFormed(cron) && Walking(cur)
    requires cur.month in cron.month.values && cur.day <= DaysInMonth(cur.year, cur.month) && DateMatches(cron, cur.year, cur.month, cur.day)
    ensures GoodCheck(cron, endYear, cur, CheckOf(cron, cur))
  {
    hide DateMatches, NoMatch, StepsLeft, GoodSkip, DaysInMonth;
    var check := CheckOf(cron, cur);
    if cur.hour !in cron.hour.values {
      SkipHours(cron, endYear, cur, check.next);
    } else if cur.minute !in cron.minute.values {
      SkipMinutes(cron, endYear, cur, check.next);
    } else if check.Skip? {
      SkipRestOfMinute(cron, endYear, cur);
    } else {
      SkipSeconds(cron, endYear, cur, check.w.second);
      ListedHours(cron, cur, check.w);
    }
  }

  lemma ListedHours(cron: CronPattern, cur: Wall, w: Wall)
    requires WellFormed(cron) && Walking(cur) && cur.day <= DaysInMonth(cur.year, cur.month)
    requires cur.hour in cron.hour.values && cur.minute in cron.minute.values && w.second in cron.second.values && w == cur.(second := w.second)
    ensures ValidWall(w)
  {
    hide DaysInMonth;
  }

  method CheckFields(cron: CronPattern, cur: Wall, ghost endYear: int) returns (check: Check)
    requires WellFormed(cron) && Walking(cur)
    ensures check == CheckOf(cron, cur) && GoodCheck(cron, endYear, cur, check)
  {
    hide DayMatches, GoodCheck;
    CheckIsGood(cron, endYear, cur);
    var Wall(year, month, day, hour, minute, second) := cur;
    // 1. Month check
    if month !in cron.month.values {
      var nextMonth := NextIn(cron.month.sorted, month);
      if nextMonth.Some? {
        month := nextMonth.value;
      } else {
        year := year + 1;
        month := cron.month.sorted[0];
      }
      check := Skip(Wall(year, month, 1, 0, 0, 0));
      return;
    }
    // 2. Day check
    var monthLength := DaysInMonth(year, month);
    if day > monthLength {
      month := month + 1;
      if month > 12 {
        month := 1;
        year := year + 1;
      }
      check := Skip(Wall(year, month, 1, 0, 0, 0));
      return;
    }
    var dow := DayOfWeek(year, month, day);
    if !DayMatches(cron, day, dow, monthLength) {
      check := Skip(Wall(year, month, day + 1, 0, 0, 0));
      return;
    }
    // 3. Hour check
    if hour !in cron.hour.values {
      var nextHour := NextIn(cron.hour.sorted, hour);
      if nextHour.Some? {
        hour := nextHour.value;
      } else {
        day := day + 1;
        hour := 0;
      }
      check := Skip(Wall(year, month, day, hour, 0, 0));
      return;
    }
    // 4. Minute check
    if minute !in cron.minute.values {
      var nextMinute := NextIn(cron.minute.sorted, minute);
      if nextMinute.Some? {
        minute := nextMinute.value;
      } else {
        hour := hour + 1;
        minute := 0;
      }
      check := Skip(Wall(year, month, day, hour, minute, 0));
      return;
    }
    // 5. Second check
    if second !in cron.second.values {
      var nextSecond := NextIn(cron.second.sorted, second);
      if nextSecond.Some? {
        second := nextSecond.value;
      } else {
        check := Skip(Wall(year, month, day, hour, minute + 1, 0));
        return;
      }
    }
    check := Candidate(cur.(second := second));
  }

  /** Every time turned down before `cur` is in the set. */
  ghost predicate AllCounted(cron: CronPattern, resolve: Wall -> Option<int>, start: Wall, cur: Wall, rejected: set<Wall>) {
    forall w :: Rejected(cron, resolve, start, w) && Before(w, cur) ==> w in rejected
  }

  /** At most `n` times are turned down before `at`. */
  ghost predicate FewRejections(cron: CronPattern, resolve: Wall -> Option<int>, start: Wall, at: Wall, n: int) {
    forall s: set<Wall> :: (forall w :: w in s ==> Rejected(cron, resolve, start, w) && Before(w, at)) ==> |s| <= n
  }

  lemma SubsetSize(s: set<Wall>, all: set<Wall>)
    requires s <= all
    ensures |s| <= |all|
  {
    assert all == s + (all - s);
  }

  lemma CountedAreFew(cron: CronPattern, resolve: Wall -> Option<int>, start: Wall, at: Wall, rejected: set<Wall>, n: int)
    requires AllCounted(cron, resolve, start, at, rejected) && |rejected| <= n
    ensures FewRejections(cron, resolve, start, at, n)
  {
    forall s: set<Wall> | forall w :: w in s ==> Rejected(cron, resolve, start, w) && Before(w, at) ensures |s| <= n {
      SubsetSize(s, rejected);
    }
  }

  lemma CountedExtend(cron: CronPattern, resolve: Wall -> Option<int>, start: Wall, cur: Wall, next: Wall, rejected: set<Wall>)
    requires AllCounted(cron, resolve, start, cur, rejected) && NoMatch(cron, cur, next)
    ensures AllCounted(cron, resolve, start, next, rejected)
  {
    hide Matches;
  }

  lemma CountedPast(cron: CronPattern, resolve: Wall -> Option<int>, start: Wall, w: Wall, next: Wall, rejected: set<Wall>)
    requires AllCounted(cron, resolve, start, w, rejected) && ValidWall(w) && IsNext(w, next)
    ensures AllCounted(cron, resolve, start, next, rejected + {w})
  {
    hide Matches;
    forall v | Rejected(cron, resolve, start, v) && Before(v, next) ensures v in rejected + {w} {
      assert ValidWall(v) && !Before(v, w) ==> v == w;
    }
  }

  /** Every round moves forward. */
  lemma RoundAdvances(cron: CronPattern, cur: Wall)
    requires WellFormed(cron) && Walking(cur)
    ensures var check := CheckOf(cron, cur);
      && (check.Skip? ==> Walking(check.next) && Before(cur, check.next))
      && (check.Candidate? ==> ValidWall(check.w) && Walking(PlusOneSecond(check.w)) && Before(cur, PlusOneSecond(check.w)))
  {
    hide CheckOf, WellFormed, NoMatch, StepsLeft, Matches;
    CheckIsGood(cron, 0, cur);
    var check := CheckOf(cron, cur);
    if check.Candidate? {
      PlusOneSecondIsNext(check.w, check.w);
      hide PlusOneSecond;
    }
  }

  /** How many rounds the walk takes from `cur`, without its step guard. */
  ghost function Rounds(cron: CronPattern, resolve: Wall -> Option<int>, endYear: int, cur: Wall): nat
    requires WellFormed(cron) && Walking(cur)
    decreases endYear + 1 - cur.year, 12 - cur.month, 32 - cur.day, 24 - cur.hour, 60 - cur.minute, 60 - cur.second
  {
    hide CheckOf, WellFormed, PlusOneSecond;
    if cur.year > endYear then 0
    else
      RoundAdvances(cron, cur);
      match CheckOf(cron, cur)
      case Skip(next) => 1 + Rounds(cron, resolve, endYear, next)
      case Candidate(w) => if resolve(w).Some? then 1 else 1 + Rounds(cron, resolve, endYear, PlusOneSecond(w))
  }

  /** The walk takes more rounds than its guard allows. */
  ghost predicate WalksTooLong(cron: CronPattern, resolve: Wall -> Option<int>, start: Wall)
    requires WellFormed(cron) && ValidWall(start)
  {
    Rounds(cron, resolve, start.year + MAX_SEARCH_YEARS, start) > MAX_SEARCH_STEPS
  }

  /** What holds between two steps of the walk. */
  ghost predicate Progress(cron: CronPattern, resolve: Wall -> Option<int>, start: Wall, cur: Wall, steps: int,
                           rejected: set<Wall>, minuteEnds: set<Wall>)
  {
    && Walking(cur) && !Before(cur, start) && NoHit(cron, resolve, start, cur)
    && RejectedTimes(cron, resolve, start, rejected, minuteEnds)
    && (forall w :: w in rejected ==> Before(w, cur)) && AllCounted(cron, resolve, start, cur, rejected) && |rejected| <= steps
    && steps + StepsLeft(cron, start.year + MAX_SEARCH_YEARS, cur) <= 14_000 + |rejected| + 4 * |minuteEnds|
  }

  lemma ProgressToCandidate(cron: CronPattern, resolve: Wall -> Option<int>, start: Wall, cur: Wall, w: Wall,
                            steps: int, rejected: set<Wall>, minuteEnds: set<Wall>)
    requires Progress(cron, resolve, start, cur, steps, rejected, minuteEnds)
    requires ValidWall(w) && NoMatch(cron, cur, w) && !Before(w, cur)
    requires StepsLeft(cron, start.year + MAX_SEARCH_YEARS, w) == StepsLeft(cron, start.year + MAX_SEARCH_YEARS, cur)
    ensures Progress(cron, resolve, start, w, steps, rejected, minuteEnds)
  {
    Extend(cron, resolve, start, cur, w);
    CountedExtend(cron, resolve, start, cur, w, rejected);
    hide AllCounted, NoMatch, Hit, Rejected;
  }

  lemma ProgressPastSkip(cron: CronPattern, resolve: Wall -> Option<int>, start: Wall, cur: Wall, next: Wall,
                         steps: int, rejected: set<Wall>, minuteEnds: set<Wall>)
    requires Progress(cron, resolve, start, cur, steps, rejected, minuteEnds)
    requires GoodSkip(cron, start.year + MAX_SEARCH_YEARS, cur, next)
    ensures Progress(cron, resolve, start, next, steps + 1, rejected, minuteEnds)
  {
    Extend(cron, resolve, start, cur, next);
    CountedExtend(cron, resolve, start, cur, next, rejected);
    hide AllCounted, NoMatch, Hit, Rejected, StepsLeft;
  }

  lemma NotAfter(w: Wall, next: Wall)
    requires IsNext(w, next)
    ensures Walking(next) && forall v :: !Before(w, v) ==> !Before(next, v)
  {}

  lemma OneMore(s: set<Wall>, w: Wall)
    ensures |s + {w}| <= |s| + 1
  {}

  lemma ProgressPastRejected(cron: CronPattern, resolve: Wall -> Option<int>, start: Wall, w: Wall, next: Wall,
                             steps: int, rejected: set<Wall>, minuteEnds: set<Wall>)
    returns (rejected': set<Wall>, minuteEnds': set<Wall>)
    requires WellFormed(cron) && Progress(cron, resolve, start, w, steps, rejected, minuteEnds)
    requires Rejected(cron, resolve, start, w) && IsNext(w, next)
    ensures Progress(cron, resolve, start, next, steps + 1, rejected', minuteEnds')
  {
    hide AllCounted, NoHit, NoMatch, Hit, Matches, StepsLeft, RejectedTimes, WellFormed;
    ExtendPast(cron, resolve, start, w, next);
    CountedPast(cron, resolve, start, w, next, rejected);
    NotAfter(w, next);
    hide Rejected, IsNext;
    rejected', minuteEnds' :=
      Reject(cron, resolve, start, start.year + MAX_SEARCH_YEARS, w, next, rejected, minuteEnds);
    OneMore(rejected, w);
  }

  /** Past the horizon nothing is turned down any more. */
  lemma HorizonCounted(cron: CronPattern, resolve: Wall -> Option<int>, start: Wall, cur: Wall, at: Wall, rejected: set<Wall>)
    requires AllCounted(cron, resolve, start, cur, rejected) && cur.year > start.year + MAX_SEARCH_YEARS
    ensures AllCounted(cron, resolve, start, at, rejected)
  {
    hide Matches;
  }

  /** What the walk knows when a candidate resolves ... */
  lemma WalkFound(cron: CronPattern, resolve: Wall -> Option<int>, start: Wall, w: Wall, steps: int, rejected: set<Wall>, minuteEnds: set<Wall>)
    requires Progress(cron, resolve, start, w, steps, rejected, minuteEnds) && steps <= MAX_SEARCH_STEPS
    requires ValidWall(w) && Matches(cron, w) && resolve(w).Some?
    ensures LeastHit(cron, resolve, start, w) && FewRejections(cron, resolve, start, w, MAX_SEARCH_STEPS)
  {
    CountedAreFew(cron, resolve, start, w, rejected, MAX_SEARCH_STEPS);
  }

  /** ... when it has left the horizon ... */
  lemma WalkOver(cron: CronPattern, resolve: Wall -> Option<int>, start: Wall, cur: Wall, steps: int, rejected: set<Wall>, minuteEnds: set<Wall>)
    requires Progress(cron, resolve, start, cur, steps, rejected, minuteEnds) && steps <= MAX_SEARCH_STEPS
    requires cur.year > start.year + MAX_SEARCH_YEARS
    ensures NoHitInHorizon(cron, resolve, start) && forall at :: FewRejections(cron, resolve, start, at, MAX_SEARCH_STEPS)
  {
    forall at ensures FewRejections(cron, resolve, start, at, MAX_SEARCH_STEPS) {
      HorizonCounted(cron, resolve, start, cur, at, rejected);
      CountedAreFew(cron, resolve, start, at, rejected, MAX_SEARCH_STEPS);
    }
  }

  /** ... and when its guard ends it. */
  lemma WalkExhausted(cron: CronPattern, resolve: Wall -> Option<int>, start: Wall, cur: Wall, steps: int, rejected: set<Wall>, minuteEnds: set<Wall>)
    requires Progress(cron, resolve, start, cur, steps, rejected, minuteEnds) && steps >= MAX_SEARCH_STEPS && cur.year <= start.year + MAX_SEARCH_YEARS
    ensures ManyRejections(cron, resolve, start)
  {
    hide Rejected, AllCounted, NoHit;
  }

  lemma WalkBegins(cron: CronPattern, resolve: Wall -> Option<int>, start: Wall)
    requires ValidWall(start)
    ensures Progress(cron, resolve, start, start, 0, {}, {})
  {
    hide Matches;
  }

  /** Walks from `start`, checking field after field, until a matching time resolves. */
  method SearchCronWall(cron: CronPattern, start: Wall, resolve: Wall -> Option<int>)
    returns (outcome: SearchOutcome)
    requires WellFormed(cron) && ValidWall(start)
    ensures outcome.Found? ==> LeastHit(cron, resolve, start, outcome.at)
                               && resolve(outcome.at) == Some(outcome.instant)
                               && outcome.at.year <= start.year + MAX_SEARCH_YEARS
    ensures outcome.StepsExhausted? <==> WalksTooLong(cron, resolve, start)
    ensures outcome.Found? ==> FewRejections(cron, resolve, start, outcome.at, MAX_SEARCH_STEPS)
    ensures outcome.HorizonReached? ==> NoHitInHorizon(cron, resolve, start)
    ensures outcome.HorizonReached? ==> forall at :: FewRejections(cron, resolve, start, at, MAX_SEARCH_STEPS)
    ensures outcome.StepsExhausted? ==> ManyRejections(cron, resolve, start)
  {
    hide Matches, NoMatch, CheckOf, Progress, WellFormed, StepsLeft, IsNext, LeastHit, FewRejections, NoHitInHorizon, ManyRejections, PlusOneSecond;
    var endYear := start.year + MAX_SEARCH_YEARS;
    ghost var rejected: set<Wall>, minuteEnds: set<Wall> := {}, {};
    var cur := start;
    var steps := 0;
    WalkBegins(cron, resolve, start);
    while cur.year <= endYear && steps < MAX_SEARCH_STEPS
      invariant 0 <= steps <= MAX_SEARCH_STEPS && Walking(cur) && !Before(cur, start)
      invariant Progress(cron, resolve, start, cur, steps, rejected, minuteEnds)
      invariant steps + Rounds(cron, resolve, endYear, cur) == Rounds(cron, resolve, endYear, start)
      decreases MAX_SEARCH_STEPS - steps
    {
      var check := CheckFields(cron, cur, endYear);
      match check {
        case Skip(next) =>
          ProgressPastSkip(cron, resolve, start, cur, next, steps, rejected, minuteEnds);
          cur := next;
        case Candidate(w) =>
          ProgressToCandidate(cron, resolve, start, cur, w, steps, rejected, minuteEnds);
          var found := resolve(w);
          if found.Some? {
            WalkFound(cron, resolve, start, w, steps, rejected, minuteEnds);
            return Found(w, found.value);
          }
          cur := AddOneSecond(w);
          StepForward(start, w, cur);
          rejected, minuteEnds := ProgressPastRejected(cron, resolve, start, w, cur, steps, rejected, minuteEnds);
      }
      steps := steps + 1;
    }
    if cur.year > endYear {
      WalkOver(cron, resolve, start, cur, steps, rejected, minuteEnds);
      return HorizonReached;
    }
    WalkExhausted(cron, resolve, start, cur, steps, rejected, minuteEnds);
    return StepsExhausted;
  }

  lemma StepForward(start: Wall, w: Wall, next: Wall)
    requires IsNext(w, next) && !Before(w, start)
    ensures Walking(next) && Before(w, next) && !Before(next, start)
  {}
}
