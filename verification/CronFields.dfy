/** The fields of a cron pattern: which word fills which, what its names and numbers stand for, and what may be written. */
module CronFields {
  import opened CronText
  import opened CronDays
  import opened CronParser
  import opened CronPatterns
  import opened Grid

  // ---- Words and fields ----

  /** Of five words the first two are minute and hour, then come the days, months and weekdays; the seconds are zero. */
  lemma FiveWords(words: seq<string>, cron: CronPattern)
    requires |words| == 5 && PatternMeans(words, cron)
    ensures !cron.hasSeconds && cron.second.values == {0}
    ensures FieldMeans(words[0], CRON_MINUTE, cron.minute) && FieldMeans(words[1], CRON_HOUR, cron.hour)
    ensures FieldMeans(words[2], CRON_DOM, cron.dom) && FieldMeans(words[3], CRON_MONTH, cron.month)
    ensures DowMeans(Split(words[4], ','), cron.dow.values)
    ensures ModifiersMean(Split(words[2], ','), CRON_DOM, DayModifiers(cron.domLast, cron.domLastWeekday, cron.domNearestWeekday, {}, []))
    ensures ModifiersMean(Split(words[4], ','), CRON_DOW, DayModifiers(false, false, [], cron.dowLast, cron.dowNth))
    ensures cron.wildcardTime <==> '*' in words[0] || '*' in words[1]
  {
    hide FieldMeans, DowMeans, ModifiersMean;
    ZeroSeconds(cron.second);
  }

  /** Six words put the seconds first. */
  lemma SixWords(words: seq<string>, cron: CronPattern)
    requires |words| == 6 && PatternMeans(words, cron)
    ensures cron.hasSeconds && FieldMeans(words[0], CRON_SECOND, cron.second)
    ensures FieldMeans(words[1], CRON_MINUTE, cron.minute) && FieldMeans(words[2], CRON_HOUR, cron.hour)
    ensures FieldMeans(words[3], CRON_DOM, cron.dom) && FieldMeans(words[4], CRON_MONTH, cron.month)
    ensures DowMeans(Split(words[5], ','), cron.dow.values)
    ensures ModifiersMean(Split(words[3], ','), CRON_DOM, DayModifiers(cron.domLast, cron.domLastWeekday, cron.domNearestWeekday, {}, []))
    ensures ModifiersMean(Split(words[5], ','), CRON_DOW, DayModifiers(false, false, [], cron.dowLast, cron.dowNth))
    ensures cron.wildcardTime <==> '*' in words[1] || '*' in words[2]
  {
    hide FieldMeans, DowMeans, ModifiersMean;
  }

  /** The pattern is accepted just if each word is acceptable in its own field. */
  lemma AcceptedWords(words: seq<string>)
    ensures |words| == 5 ==> (AcceptedPattern(words) <==>
                                && Accepted(words[0], CRON_MINUTE) && Accepted(words[1], CRON_HOUR) && Accepted(words[2], CRON_DOM)
                                && Accepted(words[3], CRON_MONTH) && Accepted(words[4], CRON_DOW))
    ensures |words| == 6 ==> (AcceptedPattern(words) <==>
                                && Accepted(words[0], CRON_SECOND) && Accepted(words[1], CRON_MINUTE) && Accepted(words[2], CRON_HOUR)
                                && Accepted(words[3], CRON_DOM) && Accepted(words[4], CRON_MONTH) && Accepted(words[5], CRON_DOW))
    ensures |words| != 5 && |words| != 6 ==> !AcceptedPattern(words)
  {
    assert Render(Value(0)) == "0";
    OnePart(Value(0), CRON_SECOND);
    hide Accepted;
  }

  // ---- Numbers and names ----

  const MONTHS := ["JAN", "FEB", "MAR", "APR", "MAY", "JUN", "JUL", "AUG", "SEP", "OCT", "NOV", "DEC"]
  const WEEKDAYS := ["SUN", "MON", "TUE", "WED", "THU", "FRI", "SAT"]

  lemma MonthTable()
    ensures CRON_MONTH.names.Keys == set i | 0 <= i < 12 :: MONTHS[i]
    ensures forall i: nat :: i < 12 ==> MONTHS[i] in CRON_MONTH.names && CRON_MONTH.names[MONTHS[i]] == i + 1
  {
    assert MONTH_NAMES.Keys == {"JAN", "FEB", "MAR", "APR", "MAY", "JUN", "JUL", "AUG", "SEP", "OCT", "NOV", "DEC"};
    assert MONTHS[0] == "JAN" && MONTHS[1] == "FEB" && MONTHS[2] == "MAR" && MONTHS[3] == "APR" && MONTHS[4] == "MAY" && MONTHS[5] == "JUN";
    assert MONTHS[6] == "JUL" && MONTHS[7] == "AUG" && MONTHS[8] == "SEP" && MONTHS[9] == "OCT" && MONTHS[10] == "NOV" && MONTHS[11] == "DEC";
  }

  lemma WeekdayTable()
    ensures CRON_DOW.names.Keys == set i | 0 <= i < 7 :: WEEKDAYS[i]
    ensures forall i: nat :: i < 7 ==> WEEKDAYS[i] in CRON_DOW.names && CRON_DOW.names[WEEKDAYS[i]] == i
  {
    assert DOW_NAMES.Keys == {"SUN", "MON", "TUE", "WED", "THU", "FRI", "SAT"};
    assert WEEKDAYS[0] == "SUN" && WEEKDAYS[1] == "MON" && WEEKDAYS[2] == "TUE" && WEEKDAYS[3] == "WED";
    assert WEEKDAYS[4] == "THU" && WEEKDAYS[5] == "FRI" && WEEKDAYS[6] == "SAT";
  }

  /** A value of the month field is a number, or the name of a month in any case, counted from one. */
  lemma MonthValues(t: string, v: nat)
    ensures IsValue(t, CRON_MONTH, v) <==> (IsDigits(t) && ToNat(t) == v) || exists i: nat :: i < 12 && Upper(t) == MONTHS[i] && v == i + 1
  {
    MonthTable();
    MonthNamesAreGood();
    NamedValue(t, CRON_MONTH, v);
    hide MONTH_NAMES, ToNat, Upper;
  }

  /** A value of the day-of-week field is a number, or the name of a weekday in any case, counted from Sunday as zero. */
  lemma WeekdayValues(t: string, v: nat)
    ensures IsValue(t, CRON_DOW, v) <==> (IsDigits(t) && ToNat(t) == v) || exists i: nat :: i < 7 && Upper(t) == WEEKDAYS[i] && v == i
  {
    WeekdayTable();
    DayNamesAreGood();
    NamedValue(t, CRON_DOW, v);
    hide DOW_NAMES, ToNat, Upper;
  }

  lemma NamedValue(t: string, spec: FieldSpec, v: nat)
    requires GoodNames(spec)
    ensures IsValue(t, spec, v) <==> (IsDigits(t) && ToNat(t) == v) || (Upper(t) in spec.names && spec.names[Upper(t)] == v)
  {
    if IsDigits(t) {
      assert t[0] in t && IsDigit(t[0]) && Upper(t)[0] == UpperChar(t[0]);
      assert !ThreeLetters(Upper(t));
    }
  }

  /** The other fields take numbers only. */
  lemma PlainValues(t: string, spec: FieldSpec, v: nat)
    requires spec == CRON_SECOND || spec == CRON_MINUTE || spec == CRON_HOUR || spec == CRON_DOM
    ensures IsValue(t, spec, v) <==> IsDigits(t) && ToNat(t) == v
  {}

  // ---- What may be written ----

  ghost predicate Bounds(spec: FieldSpec, min: nat, max: nat) {
    && (forall v: nat :: InBounds(Value(v), spec) <==> min <= v <= max)
    && (forall v :: Hits(All, spec, v) <==> min <= v <= max)
  }

  /** The ranges of the six fields; Sunday may be 0 or 7. */
  lemma FieldBounds()
    ensures Bounds(CRON_SECOND, 0, 59) && Bounds(CRON_MINUTE, 0, 59) && Bounds(CRON_HOUR, 0, 23)
    ensures Bounds(CRON_DOM, 1, 31) && Bounds(CRON_MONTH, 1, 12) && Bounds(CRON_DOW, 0, 7)
  {}

  /** A question mark is a wildcard in the two day fields only. */
  lemma QuestionMarks()
    ensures forall spec: FieldSpec :: spec.allowQuestion ==> Spells("?", spec, All)
    ensures CRON_DOM.allowQuestion && CRON_DOW.allowQuestion
    ensures !Spells("?", CRON_SECOND, All) && !Spells("?", CRON_MINUTE, All) && !Spells("?", CRON_HOUR, All) && !Spells("?", CRON_MONTH, All)
  {}

  /** Ranges run upwards within the bounds of their field, and every step is positive. */
  lemma RangesInBounds(spec: FieldSpec, a: nat, b: nat, step: nat)
    ensures InBounds(Range(a, b), spec) <==> a <= b && InBounds(Value(a), spec) && InBounds(Value(b), spec)
    ensures InBounds(RangeSteps(a, b, step), spec) <==> InBounds(Range(a, b), spec) && step >= 1
    ensures InBounds(ValueSteps(a, step), spec) <==> InBounds(Value(a), spec) && step >= 1
    ensures InBounds(Steps(step), spec) <==> step >= 1
  {}

  /** Day modifiers take the days of a month, either number for Sunday, and at most five weeks. */
  lemma ModifiersInBounds(spec: FieldSpec, n: nat, d: nat)
    ensures InBounds(NearestTo(n), spec) <==> n in {1, 2, 3, 4, 5, 6, 7, 8, 9, 10, 11, 12, 13, 14, 15, 16, 17, 18, 19, 20, 21, 22, 23, 24, 25, 26,
                                                   27, 28, 29, 30, 31}
    ensures InBounds(LastDow(d), spec) <==> d in {0, 1, 2, 3, 4, 5, 6, 7}
    ensures InBounds(NthDow(d, n), spec) <==> InBounds(LastDow(d), spec) && n in {1, 2, 3, 4, 5}
    ensures InBounds(LastDay, spec) && InBounds(LastWeekday, spec) && InBounds(All, spec)
  {}

  /** `v` is `from` or some steps after it, up to `last`. */
  ghost predicate InSteps(from: int, last: int, step: int, v: int) {
    v <= last && exists k: nat :: v == from + k * step
  }

  lemma StepsAre(from: int, last: int, step: int, v: int)
    requires step > 0
    ensures v <= last && OnGrid(from, step, v) <==> InSteps(from, last, step, v)
  {
    if OnGrid(from, step, v) {
      var k := GridIndex(from, step, v);
    }
    if k: nat :| v == from + k * step {
      GridPoint(from, step, k);
    }
  }

  /** What each part adds: a number, a range, or every step-th number of one; a bare start goes on to the last value. */
  lemma HitsExactly(spec: FieldSpec, a: nat, b: nat, step: nat, v: int)
    requires step > 0
    ensures Hits(Value(a), spec, v) <==> v == a
    ensures Hits(Range(a, b), spec, v) <==> a <= v <= b
    ensures Hits(RangeSteps(a, b, step), spec, v) <==> InSteps(a, b, step, v)
    ensures Hits(ValueSteps(a, step), spec, v) <==> InSteps(a, spec.max, step, v)
    ensures Hits(Steps(step), spec, v) <==> InSteps(spec.min, spec.max, step, v)
    ensures !Hits(LastDay, spec, v) && !Hits(LastWeekday, spec, v) && !Hits(NearestTo(a), spec, v) && !Hits(LastDow(a), spec, v)
    ensures !Hits(NthDow(a, b), spec, v)
  {
    StepsAre(a, b, step, v);
    StepsAre(a, spec.max, step, v);
    StepsAre(spec.min, spec.max, step, v);
    hide InSteps;
  }
}
