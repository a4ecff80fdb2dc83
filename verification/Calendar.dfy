/** The proleptic Gregorian calendar behind Date.UTC and the getUTC* accessors
    (section 21.4.1 of ECMA-262), and wall-clock times built on it.
 */
module Calendar {

  const SECONDS_PER_DAY := 86400

  /** What a clock on the wall reads; whose zone it is in, the value does not say. */
  datatype Wall = Wall(year: int, month: int, day: int, hour: int, minute: int, second: int)

  predicate IsLeap(year: int) {
    year % 4 == 0 && (year % 100 != 0 || year % 400 == 0)
  }

  function LeapDay(year: int): int {
    if IsLeap(year) then 1 else 0
  }

  /** Number of the first day of a year, counted from 1970-01-01. */
  function DayFromYear(year: int): int {
    365 * (year - 1970) + (year - 1969) / 4 - (year - 1901) / 100 + (year - 1601) / 400
  }

  /** Days of the year before the first of a month. */
  function DaysBeforeMonth(year: int, month: int): int {
    if month <= 1 then 0
    else if month == 2 then 31
    else
      LeapDay(year) +
      if month == 3 then 59 else if month == 4 then 90 else if month == 5 then 120
      else if month == 6 then 151 else if month == 7 then 181 else if month == 8 then 212
      else if month == 9 then 243 else if month == 10 then 273 else if month == 11 then 304 else 334
  }

  function DaysInMonth(year: int, month: int): int {
    if month == 2 then 28 + LeapDay(year)
    else if month in {4, 6, 9, 11} then 30
    else 31
  }

  function DayNumber(year: int, month: int, day: int): int {
    DayFromYear(year) + DaysBeforeMonth(year, month) + day - 1
  }

  /** 0 = Sunday; 1970-01-01 was a Thursday. */
  function DayOfWeek(year: int, month: int, day: int): int {
    (DayNumber(year, month, day) + 4) % 7
  }

  predicate ValidDate(year: int, month: int, day: int) {
    1 <= month <= 12 && 1 <= day <= DaysInMonth(year, month)
  }

  predicate ValidTime(hour: int, minute: int, second: int) {
    0 <= hour < 24 && 0 <= minute < 60 && 0 <= second < 60
  }

  predicate ValidWall(w: Wall) {
    ValidDate(w.year, w.month, w.day) && ValidTime(w.hour, w.minute, w.second)
  }

  function SecondOfDay(hour: int, minute: int, second: int): int {
    3600 * hour + 60 * minute + second
  }

  /** Seconds since the epoch of a wall time read as UTC. */
  function Seconds(w: Wall): int {
    SECONDS_PER_DAY * DayNumber(w.year, w.month, w.day) + SecondOfDay(w.hour, w.minute, w.second)
  }

  /** Lexicographic order on the six fields, also used on times whose fields ran over (hour 24, day 32). */
  predicate Before(a: Wall, b: Wall) {
    a.year < b.year || (a.year == b.year &&
    (a.month < b.month || (a.month == b.month &&
    (a.day < b.day || (a.day == b.day &&
    (a.hour < b.hour || (a.hour == b.hour &&
    (a.minute < b.minute || (a.minute == b.minute &&
    a.second < b.second)))))))))
  }

  // ---- Day numbers are strictly ordered ----

  lemma YearLength(year: int)
    ensures DayFromYear(year + 1) == DayFromYear(year) + 365 + LeapDay(year)
  {
    var y := year;
    assert (y - 1969) / 4 + (if y % 4 == 0 then 1 else 0) == (y - 1968) / 4;
    assert (y - 1901) / 100 + (if y % 100 == 0 then 1 else 0) == (y - 1900) / 100;
    assert (y - 1601) / 400 + (if y % 400 == 0 then 1 else 0) == (y - 1600) / 400;
    assert y % 100 == 0 ==> y % 4 == 0;
    assert y % 400 == 0 ==> y % 100 == 0;
  }

  lemma {:induction false} LaterYear(a: int, b: int)
    requires a < b
    ensures DayFromYear(a) + 365 + LeapDay(a) <= DayFromYear(b)
    decreases b - a
  {
    YearLength(a);
    if a + 1 < b {
      LaterYear(a + 1, b);
    }
  }

  lemma MonthEnds(year: int, month: int)
    requires 1 <= month <= 12
    ensures month < 12 ==> DaysBeforeMonth(year, month + 1) == DaysBeforeMonth(year, month) + DaysInMonth(year, month)
    ensures month == 12 ==> DaysBeforeMonth(year, month) + DaysInMonth(year, month) == 365 + LeapDay(year)
  {}

  lemma {:induction false} LaterMonth(year: int, a: int, b: int)
    requires 1 <= a < b <= 12
    ensures DaysBeforeMonth(year, a) + DaysInMonth(year, a) <= DaysBeforeMonth(year, b)
    decreases b - a
  {
    MonthEnds(year, a);
    if a + 1 < b {
      LaterMonth(year, a + 1, b);
    }
  }

  lemma DayOfYearBound(year: int, month: int, day: int)
    requires ValidDate(year, month, day)
    ensures 0 <= DaysBeforeMonth(year, month) + day - 1 < 365 + LeapDay(year)
  {
    MonthEnds(year, month);
    if month < 12 {
      LaterMonth(year, month, 12);
    }
  }

  lemma LaterDate(y1: int, m1: int, d1: int, y2: int, m2: int, d2: int)
    requires ValidDate(y1, m1, d1) && ValidDate(y2, m2, d2)
    requires y1 < y2 || (y1 == y2 && (m1 < m2 || (m1 == m2 && d1 < d2)))
    ensures DayNumber(y1, m1, d1) < DayNumber(y2, m2, d2)
  {
    DayOfYearBound(y1, m1, d1);
    DayOfYearBound(y2, m2, d2);
    if y1 < y2 {
      LaterYear(y1, y2);
    } else if m1 < m2 {
      LaterMonth(y1, m1, m2);
    }
  }

  /** Lexicographic order and the order of instants agree. */
  lemma BeforeIsEarlier(a: Wall, b: Wall)
    requires ValidWall(a) && ValidWall(b)
    ensures Before(a, b) <==> Seconds(a) < Seconds(b)
  {
    if Before(a, b) {
      EarlierIfBefore(a, b);
    } else if Before(b, a) {
      EarlierIfBefore(b, a);
    } else {
      assert a == b;
    }
  }

  lemma EarlierIfBefore(a: Wall, b: Wall)
    requires ValidWall(a) && ValidWall(b) && Before(a, b)
    ensures Seconds(a) < Seconds(b)
  {
    if (a.year, a.month, a.day) != (b.year, b.month, b.day) {
      LaterDate(a.year, a.month, a.day, b.year, b.month, b.day);
    }
  }

  // ---- The wall time of an instant ----

  function YearSearch(day: int, year: int): (y: int)
    ensures DayFromYear(y) <= day < DayFromYear(y + 1)
    decreases if DayFromYear(year) > day then 1 else 0,
              if DayFromYear(year) > day then DayFromYear(year) - day else day - DayFromYear(year)
  {
    YearLength(year);
    YearLength(year - 1);
    if DayFromYear(year) > day then YearSearch(day, year - 1)
    else if DayFromYear(year + 1) <= day then YearSearch(day, year + 1)
    else year
  }

  function MonthSearch(year: int, dayOfYear: int, month: int): (m: int)
    requires 1 <= month <= 12
    requires DaysBeforeMonth(year, month) <= dayOfYear < 365 + LeapDay(year)
    ensures 1 <= m <= 12
    ensures 0 <= dayOfYear - DaysBeforeMonth(year, m) < DaysInMonth(year, m)
    decreases 12 - month
  {
    MonthEnds(year, month);
    if month < 12 && DaysBeforeMonth(year, month + 1) <= dayOfYear then MonthSearch(year, dayOfYear, month + 1)
    else month
  }

  /** The wall time `n` seconds after the epoch, in UTC. */
  function WallAt(n: int): (w: Wall)
    ensures ValidWall(w) && Seconds(w) == n
  {
    var day := n / SECONDS_PER_DAY;
    var sec := n % SECONDS_PER_DAY;
    var year := YearSearch(day, 1970);
    YearLength(year);
    var dayOfYear := day - DayFromYear(year);
    var month := MonthSearch(year, dayOfYear, 1);
    SplitSecondOfDay(sec);
    Wall(year, month, dayOfYear - DaysBeforeMonth(year, month) + 1, sec / 3600, sec / 60 % 60, sec % 60)
  }

  lemma SplitSecondOfDay(sec: int)
    requires 0 <= sec < SECONDS_PER_DAY
    ensures ValidTime(sec / 3600, sec / 60 % 60, sec % 60)
    ensures SecondOfDay(sec / 3600, sec / 60 % 60, sec % 60) == sec
  {
    assert sec / 60 / 60 == sec / 3600;
  }

  /** Each wall time has its own second: WallAt inverts Seconds. */
  lemma WallAtSeconds(w: Wall)
    requires ValidWall(w)
    ensures WallAt(Seconds(w)) == w
  {
    var v := WallAt(Seconds(w));
    BeforeIsEarlier(v, w);
    BeforeIsEarlier(w, v);
  }

  /** The successor of a wall time, found by converting to seconds, adding one and converting back. */
  function PlusOneSecond(w: Wall): (r: Wall)
    requires ValidWall(w)
    ensures ValidWall(r) && Seconds(r) == Seconds(w) + 1
  {
    WallAt(Seconds(w) + 1)
  }

  /** PlusOneSecond is the successor in lexicographic order: no valid wall time lies between. */
  lemma PlusOneSecondIsNext(w: Wall, v: Wall)
    requires ValidWall(w) && ValidWall(v)
    ensures Before(w, PlusOneSecond(w))
    ensures Before(v, PlusOneSecond(w)) <==> !Before(w, v)
  {
    BeforeIsEarlier(w, PlusOneSecond(w));
    BeforeIsEarlier(v, PlusOneSecond(w));
    BeforeIsEarlier(w, v);
  }
}
