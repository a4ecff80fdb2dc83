/** Wall clocks of a timezone: which instants show a given wall time, and where a skipped one resumes.
    A zone is its offset from UTC as a function of the instant, both in milliseconds.
 */
module Timezone {
  import opened Sequences
  import opened Calendar

  const MINUTE_MS := 60_000
  const DAY_MS := 86_400_000
  /** No change of offset is larger, and none is looked for further away from a guess. */
  const DST_WINDOW_MS := 10_800_000

  ghost predicate SameMinute(a: int, b: int) {
    a / MINUTE_MS == b / MINUTE_MS
  }

  /** Three instants in order, inside two days. */
  ghost predicate InOrder(a: int, b: int, c: int) {
    a <= b <= c <= a + 2 * DAY_MS
  }

  /** Offsets are whole minutes below a day, change on minute boundaries by at most the DST window,
      and at most once in any two days.
  */
  ghost predicate ZoneRules(offset: int -> int) {
    && (forall t :: offset(t) % MINUTE_MS == 0 && -DAY_MS < offset(t) < DAY_MS)
    && (forall a, b {:trigger SameMinute(a, b)} :: SameMinute(a, b) ==> offset(a) == offset(b))
    && (forall a, b, c {:trigger InOrder(a, b, c)} :: InOrder(a, b, c) ==>
          && (offset(a) == offset(b) || offset(b) == offset(c))
          && -DST_WINDOW_MS <= offset(a) - offset(c) <= DST_WINDOW_MS)
  }

  type Zone = z: int -> int | ZoneRules(z) witness (t => 0)

  /** One summer: an hour ahead from `spring` until `fall`. */
  function Summer(spring: int, fall: int, t: int): int {
    if spring <= t < fall then 3_600_000 else 0
  }

  /** Summer time obeys the rules, with a gap in spring and a repeated hour in fall. */
  lemma SummerTimeIsAZone(spring: int, fall: int)
    requires spring % MINUTE_MS == 0 && fall % MINUTE_MS == 0 && fall > spring + 2 * DAY_MS
    ensures ZoneRules(t => Summer(spring, fall, t))
  {
    forall a, b | SameMinute(a, b) ensures Summer(spring, fall, a) == Summer(spring, fall, b) {
      SameSide(a, b, spring);
      SameSide(a, b, fall);
    }
  }

  lemma SameSide(a: int, b: int, edge: int)
    requires SameMinute(a, b) && edge % MINUTE_MS == 0
    ensures a < edge <==> b < edge
  {
    var m := edge / MINUTE_MS;
    assert edge == MINUTE_MS * m;
    MinuteSide(a, m);
    MinuteSide(b, m);
  }

  lemma MinuteSide(t: int, m: int)
    ensures t < MINUTE_MS * m <==> t / MINUTE_MS < m
  {}

  /** The wall clock at an instant, read as if it were UTC. */
  function Clock(zone: Zone, t: int): int {
    t + zone(t)
  }

  function Naive(w: Wall): int {
    1000 * Seconds(w)
  }

  /** Wall-clock parts of an instant. */
  function TzParts(zone: Zone, t: int): (w: Wall)
    ensures ValidWall(w) && Seconds(w) == Clock(zone, t) / 1000
  {
    WallAt(Clock(zone, t) / 1000)
  }

  /** Offset of the zone, recomputed from wall-clock parts at the start of the minute: it is the
      zone's own offset, because offsets and their changes fall on whole minutes.
  */
  function TzOffsetMs(zone: Zone, t: int): (r: int)
    ensures r == zone(t)
  {
    var floored := t / MINUTE_MS * MINUTE_MS;
    var p := TzParts(zone, floored);
    WholeMinute(zone, t, floored, p);
    Naive(p.(second := 0)) - floored
  }

  lemma WholeMinute(zone: Zone, t: int, floored: int, p: Wall)
    requires ValidWall(p) && Seconds(p) == Clock(zone, floored) / 1000
    requires floored == t / MINUTE_MS * MINUTE_MS
    ensures Naive(p.(second := 0)) - floored == zone(t)
  {
    hide DayNumber;
    assert SameMinute(t, floored);
    WholeMinuteSum(floored, zone(floored));
    WholeMinuteOfDay(DayNumber(p.year, p.month, p.day), p, Clock(zone, floored));
  }

  lemma WholeMinuteSum(a: int, b: int)
    requires a % MINUTE_MS == 0 && b % MINUTE_MS == 0
    ensures (a + b) % MINUTE_MS == 0
  {
    var i, j := a / MINUTE_MS, b / MINUTE_MS;
    assert a + b == MINUTE_MS * (i + j);
  }

  lemma WholeMinuteOfDay(day: int, p: Wall, clock: int)
    requires 0 <= p.second < 60 && clock % MINUTE_MS == 0
    requires SECONDS_PER_DAY * day + SecondOfDay(p.hour, p.minute, p.second) == clock / 1000
    ensures 1000 * (SECONDS_PER_DAY * day + SecondOfDay(p.hour, p.minute, 0)) == clock
  {
    var k := clock / MINUTE_MS;
    assert clock == 1000 * (60 * k);
    assert 60 * (1440 * day + 60 * p.hour + p.minute) + p.second == 60 * k;
  }

  /** The instant shows exactly this wall time (zero milliseconds past the second). */
  predicate Shows(zone: Zone, t: int, w: Wall) {
    Clock(zone, t) == Naive(w)
  }

  // ---- From a wall time to its instants ----

  /** Candidates naive - offset that really have that offset, each once. */
  function Collect(zone: Zone, naive: int, offsets: seq<int>): seq<int> {
    if offsets == [] then []
    else
      var rest := Collect(zone, naive, offsets[..|offsets| - 1]);
      var candidate := naive - offsets[|offsets| - 1];
      if TzOffsetMs(zone, candidate) == offsets[|offsets| - 1] && candidate !in rest then rest + [candidate]
      else rest
  }

  function Insert(x: int, s: seq<int>): seq<int> {
    if s == [] || x <= s[0] then [x] + s else [s[0]] + Insert(x, s[1..])
  }

  function Sort(s: seq<int>): seq<int> {
    if s == [] then [] else Insert(s[0], Sort(s[1..]))
  }

  /** Offsets worth trying for a wall time: a guess, and the offsets around the instant it leads to. */
  function OffsetsAround(zone: Zone, naive: int): seq<int> {
    var guess := TzOffsetMs(zone, naive);
    [guess,
     TzOffsetMs(zone, naive - guess - DST_WINDOW_MS),
     TzOffsetMs(zone, naive - guess),
     TzOffsetMs(zone, naive - guess + DST_WINDOW_MS)]
  }

  /** All instants that show `w`, ascending. */
  function TzWallToInstants(zone: Zone, w: Wall): seq<int> {
    Sort(Collect(zone, Naive(w), OffsetsAround(zone, Naive(w))))
  }

  lemma {:induction false} CollectExact(zone: Zone, naive: int, offsets: seq<int>, t: int)
    ensures t in Collect(zone, naive, offsets) <==> naive - t in offsets && zone(t) == naive - t
  {
    hide TzOffsetMs;
    if offsets != [] {
      var last := |offsets| - 1;
      CollectExact(zone, naive, offsets[..last], t);
      assert offsets == offsets[..last] + [offsets[last]];
    }
  }

  lemma {:induction false} CollectDistinct(zone: Zone, naive: int, offsets: seq<int>)
    ensures NoRepeats(Collect(zone, naive, offsets))
  {
    hide TzOffsetMs;
    if offsets != [] {
      CollectDistinct(zone, naive, offsets[..|offsets| - 1]);
    }
  }

  lemma {:induction false} InsertKeeps(x: int, s: seq<int>)
    requires Ascending(s) && x !in s
    ensures Ascending(Insert(x, s))
    ensures forall y :: y in Insert(x, s) <==> y == x || y in s
  {
    if s != [] && x > s[0] {
      assert s == [s[0]] + s[1..];
      InsertKeeps(x, s[1..]);
      assert s[0] < x && forall y :: y in s[1..] ==> s[0] < y;
      assert forall i :: 0 <= i < |Insert(x, s[1..])| ==> Insert(x, s[1..])[i] in Insert(x, s[1..]);
    }
  }

  lemma {:induction false} SortKeeps(s: seq<int>)
    requires NoRepeats(s)
    ensures Ascending(Sort(s))
    ensures forall y :: y in Sort(s) <==> y in s
  {
    if s != [] {
      assert s == [s[0]] + s[1..];
      SortKeeps(s[1..]);
      InsertKeeps(s[0], Sort(s[1..]));
    }
  }

  /** The offset of an instant that shows a wall time is among the four tried: the instant lies within
      the DST window of the guess, and the offset changes at most once across that window.
  */
  lemma OffsetIsTried(zone: Zone, naive: int, t: int)
    requires Clock(zone, t) == naive
    ensures zone(t) in OffsetsAround(zone, naive)
  {
    hide TzOffsetMs;
    var guess := zone(naive);
    var offsets := OffsetsAround(zone, naive);
    assert zone(t) == naive - t;
    assert t < naive ==> InOrder(t, t, naive);
    assert t >= naive ==> InOrder(naive, naive, t);
    assert InOrder(naive - guess - DST_WINDOW_MS, t, naive - guess + DST_WINDOW_MS);
    assert offsets[1] in offsets && offsets[3] in offsets;
  }

  /** TzWallToInstants returns exactly the instants that show the wall time, ascending. */
  lemma InstantsExact(zone: Zone, w: Wall)
    ensures Ascending(TzWallToInstants(zone, w))
    ensures forall t :: t in TzWallToInstants(zone, w) <==> Shows(zone, t, w)
  {
    hide OffsetsAround, Naive, Collect, Sort;
    var naive := Naive(w);
    var offsets := OffsetsAround(zone, naive);
    CollectDistinct(zone, naive, offsets);
    SortKeeps(Collect(zone, naive, offsets));
    forall t
      ensures t in Collect(zone, naive, offsets) <==> Shows(zone, t, w)
    {
      CollectExact(zone, naive, offsets, t);
      if Shows(zone, t, w) {
        OffsetIsTried(zone, naive, t);
      }
    }
  }

  lemma NotThrice(zone: Zone, a: int, b: int, c: int)
    requires a <= b <= c && Clock(zone, a) == Clock(zone, b) == Clock(zone, c)
    ensures a == b || b == c
  {
    assert InOrder(a, b, c);
  }

  /** A wall time is shown at most twice. */
  lemma AtMostTwice(zone: Zone, w: Wall)
    ensures |TzWallToInstants(zone, w)| <= 2
  {
    hide TzWallToInstants, Naive;
    InstantsExact(zone, w);
    var s := TzWallToInstants(zone, w);
    if |s| > 2 {
      assert Shows(zone, s[0], w) && Shows(zone, s[1], w) && Shows(zone, s[2], w);
      NotThrice(zone, s[0], s[1], s[2]);
    }
  }

  // ---- Skipped wall times ----

  /** `t` is where the clock resumes after a gap that skips `w`. */
  predicate ResumesAt(zone: Zone, w: Wall, t: int) {
    t + zone(t - 1) <= Naive(w) < t + zone(t)
  }

  function GapBisect(zone: Zone, offsetBefore: int, lo: int, hi: int): int
    requires (hi - lo) % MINUTE_MS == 0
    decreases hi - lo
  {
    if hi - lo > MINUTE_MS then
      var half := (hi - lo) / 2 / MINUTE_MS * MINUTE_MS;
      HalfIsInside(lo, hi, half);
      if TzOffsetMs(zone, lo + half) == offsetBefore then GapBisect(zone, offsetBefore, lo + half, hi)
      else GapBisect(zone, offsetBefore, lo, lo + half)
    else hi
  }

  lemma HalfIsInside(lo: int, hi: int, half: int)
    requires (hi - lo) % MINUTE_MS == 0 && hi - lo > MINUTE_MS && half == (hi - lo) / 2 / MINUTE_MS * MINUTE_MS
    ensures 0 < half < hi - lo && half % MINUTE_MS == 0 && (hi - (lo + half)) % MINUTE_MS == 0
  {
    var k := (hi - lo) / MINUTE_MS;
    assert hi - lo == MINUTE_MS * k && k >= 2;
    var j := half / MINUTE_MS;
    assert half == MINUTE_MS * j;
    assert hi - (lo + half) == MINUTE_MS * (k - j);
  }

  /** The minute of a wall time, read as UTC. */
  function NaiveMinute(w: Wall): int {
    Naive(w) / MINUTE_MS * MINUTE_MS
  }

  lemma GapWidth(zone: Zone, naive: int, a: int, b: int)
    ensures ((naive - zone(a)) - (naive - zone(b))) % MINUTE_MS == 0
  {
    var i, j := zone(a) / MINUTE_MS, zone(b) / MINUTE_MS;
    assert (naive - zone(a)) - (naive - zone(b)) == MINUTE_MS * (j - i);
  }

  /** The transition that skips `w`, by bisection between the instants its minute would have under the offsets
      before and after; for a wall time some instant shows, the result says nothing.
  */
  function TzGapEnd(zone: Zone, w: Wall): int {
    hide TzOffsetMs, NaiveMinute;
    var naive := NaiveMinute(w);
    var guess := TzOffsetMs(zone, naive);
    var offsetBefore := TzOffsetMs(zone, naive - guess - DST_WINDOW_MS);
    var offsetAfter := TzOffsetMs(zone, naive - guess + DST_WINDOW_MS);
    GapWidth(zone, naive, naive - guess - DST_WINDOW_MS, naive - guess + DST_WINDOW_MS);
    GapBisect(zone, offsetBefore, naive - offsetAfter, naive - offsetBefore)
  }

  method Bisect(zone: Zone, offsetBefore: int, lo0: int, hi0: int) returns (hi: int)
    requires (hi0 - lo0) % MINUTE_MS == 0
    ensures hi == GapBisect(zone, offsetBefore, lo0, hi0)
  {
    hide TzOffsetMs;
    var lo := lo0;
    hi := hi0;
    while hi - lo > MINUTE_MS
      invariant (hi - lo) % MINUTE_MS == 0
      invariant GapBisect(zone, offsetBefore, lo, hi) == GapBisect(zone, offsetBefore, lo0, hi0)
      decreases hi - lo
    {
      var half := (hi - lo) / 2 / MINUTE_MS * MINUTE_MS;
      HalfIsInside(lo, hi, half);
      if TzOffsetMs(zone, lo + half) == offsetBefore {
        lo := lo + half;
      } else {
        hi := lo + half;
      }
    }
  }

  ghost predicate Skipped(zone: Zone, w: Wall) {
    forall t :: !Shows(zone, t, w)
  }

  /** Between two instants on either side of the one change in [first, last], bisection ends on the change. */
  lemma {:induction false} BisectFinds(zone: Zone, first: int, lo: int, hi: int, last: int)
    requires first <= lo < hi <= last <= first + 2 * DAY_MS && (hi - lo) % MINUTE_MS == 0
    requires zone(first) == zone(lo) != zone(hi) == zone(last)
    ensures var r := GapBisect(zone, zone(first), lo, hi);
            lo < r <= hi && (r - lo) % MINUTE_MS == 0 && zone(r - MINUTE_MS) == zone(first) && zone(r) == zone(last)
    decreases hi - lo
  {
    hide TzOffsetMs;
    if hi - lo > MINUTE_MS {
      var half := (hi - lo) / 2 / MINUTE_MS * MINUTE_MS;
      HalfIsInside(lo, hi, half);
      assert InOrder(first, lo + half, last);
      if zone(lo + half) == zone(first) {
        BisectFinds(zone, first, lo + half, hi, last);
        WholeMinuteSum(GapBisect(zone, zone(first), lo + half, hi) - (lo + half), half);
      } else {
        BisectFinds(zone, first, lo, lo + half, last);
      }
    } else {
      assert hi - lo == MINUTE_MS;
    }
  }

  /** No instant of the minute shows the time, so the two offsets around it differ and the change lies
      between the instants they lead to.
  */
  lemma GapBounds(zone: Zone, w: Wall, minute: int, a: int, b: int)
    requires Skipped(zone, w) && minute % MINUTE_MS == 0 && minute <= Naive(w) < minute + MINUTE_MS
    requires a == minute - zone(minute) - DST_WINDOW_MS && b == a + 2 * DST_WINDOW_MS
    ensures a <= minute - zone(b) < minute - zone(a) <= b
    ensures zone(minute - zone(b)) == zone(a) && zone(minute - zone(a)) == zone(b)
  {
    hide Naive;
    assert InOrder(if a < minute then a else minute, if a < minute then a else minute, if a < minute then minute else a);
    assert InOrder(if b < minute then b else minute, if b < minute then b else minute, if b < minute then minute else b);
    var lo, hi := minute - zone(b), minute - zone(a);
    assert InOrder(a, lo, b) && InOrder(a, hi, b);
    NotShown(zone, w, minute, lo);
    NotShown(zone, w, minute, hi);
    assert zone(hi) == zone(b) && zone(lo) == zone(a);
    assert hi <= lo ==> InOrder(a, hi, lo);
  }

  lemma NotShown(zone: Zone, w: Wall, minute: int, t: int)
    requires Skipped(zone, w) && minute % MINUTE_MS == 0 && minute <= Naive(w) < minute + MINUTE_MS
    requires t % MINUTE_MS == 0
    ensures t + zone(t) != minute
  {
    hide Naive;
    var u := t + (Naive(w) - minute);
    assert SameMinute(t, u);
    assert !Shows(zone, u, w);
  }

  /** The bisection returns exactly the instant at which the clock jumps over the skipped time. */
  lemma GapEndExact(zone: Zone, w: Wall)
    requires Skipped(zone, w)
    ensures ResumesAt(zone, w, TzGapEnd(zone, w))
  {
    hide TzOffsetMs, Naive;
    var minute := NaiveMinute(w);
    var a := minute - zone(minute) - DST_WINDOW_MS;
    var b := minute - zone(minute) + DST_WINDOW_MS;
    assert minute <= Naive(w) < minute + MINUTE_MS && minute % MINUTE_MS == 0;
    GapBounds(zone, w, minute, a, b);
    GapWidth(zone, minute, a, b);
    BisectFinds(zone, a, minute - zone(b), minute - zone(a), b);
    var r := TzGapEnd(zone, w);
    JumpAt(zone, minute - zone(b), r);
  }

  /** The gap end as the program computes it, by a loop: where the clock resumes if it skips `w`. */
  method FindGapEnd(zone: Zone, w: Wall) returns (t: int)
    ensures t == TzGapEnd(zone, w)
    ensures Skipped(zone, w) ==> ResumesAt(zone, w, t)
  {
    hide TzOffsetMs, NaiveMinute, GapBisect, ResumesAt, Skipped;
    var naive := NaiveMinute(w);
    var guess := TzOffsetMs(zone, naive);
    var offsetBefore := TzOffsetMs(zone, naive - guess - DST_WINDOW_MS);
    var offsetAfter := TzOffsetMs(zone, naive - guess + DST_WINDOW_MS);
    GapWidth(zone, naive, naive - guess - DST_WINDOW_MS, naive - guess + DST_WINDOW_MS);
    t := Bisect(zone, offsetBefore, naive - offsetAfter, naive - offsetBefore);
    if Skipped(zone, w) { GapEndExact(zone, w); }
  }

  lemma JumpAt(zone: Zone, lo: int, r: int)
    requires lo % MINUTE_MS == 0 && (r - lo) % MINUTE_MS == 0
    ensures zone(r - 1) == zone(r - MINUTE_MS)
  {
    var i, j := lo / MINUTE_MS, (r - lo) / MINUTE_MS;
    assert r == MINUTE_MS * (i + j);
    assert SameMinute(r - 1, r - MINUTE_MS);
  }

  // ---- A wall time occurs when the clock first reaches it ----

  /** First instant that shows `w`, or the end of the gap that skips it. */
  function Occurrence(zone: Zone, w: Wall): int {
    var instants := TzWallToInstants(zone, w);
    if instants == [] then TzGapEnd(zone, w) else instants[0]
  }

  /** The clock of the zone first reads `naive` or later at instant `t`. */
  ghost predicate FirstReach(zone: Zone, naive: int, t: int) {
    Clock(zone, t) >= naive && forall u :: u < t ==> Clock(zone, u) < naive
  }

  lemma NotReachedBeforeGapEnd(zone: Zone, w: Wall, t: int, u: int)
    requires ResumesAt(zone, w, t) && u < t
    ensures Clock(zone, u) < Naive(w)
  {
    hide Naive;
    assert u >= t - 2 * DAY_MS ==> InOrder(u, t - 1, t);
  }

  /** A clock that shows `w` at `t` but had passed it at `u` was set back in between, so it also
      showed `w` at or before `u`.
  */
  lemma EarlierShow(zone: Zone, w: Wall, u: int, t: int) returns (v: int)
    requires Shows(zone, t, w) && u < t && Clock(zone, u) >= Naive(w)
    ensures v <= u && Shows(zone, v, w) && t - v <= DST_WINDOW_MS && zone(v) == zone(u) != zone(t)
  {
    hide Naive;
    v := Naive(w) - zone(u);
    assert InOrder(v, u, t);
  }

  lemma NotReachedBeforeFirst(zone: Zone, w: Wall, t: int, u: int)
    requires Shows(zone, t, w) && (forall v :: v < t ==> !Shows(zone, v, w)) && u < t
    ensures Clock(zone, u) < Naive(w)
  {
    hide Naive;
    if Clock(zone, u) >= Naive(w) {
      var v := EarlierShow(zone, w, u, t);
    }
  }

  lemma OccurrenceIsFirstReach(zone: Zone, w: Wall)
    ensures FirstReach(zone, Naive(w), Occurrence(zone, w))
    ensures Skipped(zone, w) ==> ResumesAt(zone, w, Occurrence(zone, w))
    ensures !Skipped(zone, w) ==> Shows(zone, Occurrence(zone, w), w)
  {
    hide TzWallToInstants, TzGapEnd, Naive;
    InstantsExact(zone, w);
    var instants := TzWallToInstants(zone, w);
    var t := Occurrence(zone, w);
    if instants == [] {
      GapEndExact(zone, w);
      forall u | u < t ensures Clock(zone, u) < Naive(w) { NotReachedBeforeGapEnd(zone, w, t, u); }
    } else {
      assert instants[0] in instants;
      forall u | u < t ensures Clock(zone, u) < Naive(w) { NotReachedBeforeFirst(zone, w, t, u); }
    }
  }

  /** Later wall times occur no earlier. */
  lemma OccurrenceMonotone(zone: Zone, a: Wall, b: Wall)
    requires Seconds(a) <= Seconds(b)
    ensures Occurrence(zone, a) <= Occurrence(zone, b)
  {
    hide Occurrence, Seconds;
    OccurrenceIsFirstReach(zone, a);
    OccurrenceIsFirstReach(zone, b);
  }

  /** Unless both fall in one gap, different wall times occur at different instants. */
  lemma OccurrenceCollision(zone: Zone, a: Wall, b: Wall)
    requires Seconds(a) < Seconds(b) && Occurrence(zone, a) == Occurrence(zone, b)
    ensures Skipped(zone, a)
  {
    hide Occurrence, Seconds;
    OccurrenceIsFirstReach(zone, a);
    OccurrenceIsFirstReach(zone, b);
  }
}
