/** The two patterns for which the search fails although they fire, from their texts. */
module CronExamples {
  import opened Wrappers
  import opened Calendar
  import opened CronText
  import opened CronDays
  import opened CronParser
  import opened CronPatterns
  import opened CronHorizon
  import opened CronNext
  import opened CronWeeklyGaps
  import Timezone
  import CronTz

  // ---- Ten years are not enough ----

  /** `0 0 * 2 1#5` is accepted, and the fifth Monday of February is what it says. */
  lemma FifthMondayText()
    ensures AcceptedPattern(Words("0 0 * 2 1#5")) && PatternMeans(Words("0 0 * 2 1#5"), FIFTH_MONDAY_OF_FEBRUARY)
  {
    FifthMondayWords();
    FifthMondayTimes();
    FifthMondayDays();
    hide FieldMeans, DowMeans, ModifiersMean, Accepted, Words, Split;
    var words := ["0", "0", "*", "2", "1#5"];
    assert FieldTexts(words) == ["0", "0", "0", "*", "2", "1#5"];
    AllDays();
  }

  lemma AllDays()
    ensures forall d :: d in FIFTH_MONDAY_OF_FEBRUARY.dom.values <==> 1 <= d <= 31
    ensures 0 !in FIFTH_MONDAY_OF_FEBRUARY.dow.values
  {}

  lemma FifthMondayTimes()
    ensures Accepted("0", CRON_SECOND) && FieldMeans("0", CRON_SECOND, CronField({0}, [0]))
    ensures Accepted("0", CRON_MINUTE) && FieldMeans("0", CRON_MINUTE, CronField({0}, [0]))
    ensures Accepted("0", CRON_HOUR) && FieldMeans("0", CRON_HOUR, CronField({0}, [0]))
    ensures Accepted("2", CRON_MONTH) && FieldMeans("2", CRON_MONTH, CronField({2}, [2]))
  {
    MonthNamesAreGood();
    assert Render(Value(0)) == "0" && Render(Value(2)) == "2";
    hide GoodNames, Accepted, FieldMeans;
    OnePartMeans(Value(0), CRON_SECOND, CronField({0}, [0]));
    OnePartMeans(Value(0), CRON_MINUTE, CronField({0}, [0]));
    OnePartMeans(Value(0), CRON_HOUR, CronField({0}, [0]));
    OnePartMeans(Value(2), CRON_MONTH, CronField({2}, [2]));
  }

  lemma FifthMondayDays()
    ensures Accepted("*", CRON_DOM) && FieldMeans("*", CRON_DOM, FIFTH_MONDAY_OF_FEBRUARY.dom)
    ensures ModifiersMean(Split("*", ','), CRON_DOM, NONE)
    ensures Accepted("1#5", CRON_DOW) && DowMeans(Split("1#5", ','), {})
    ensures ModifiersMean(Split("1#5", ','), CRON_DOW, NONE.(dowNth := [(1, 5)]))
  {
    DayNamesAreGood();
    AllDays();
    var fifth := NthDow(1, 5);
    assert Render(All) == "*" && Render(fifth) == "1#5";
    OnePartMeans(All, CRON_DOM, FIFTH_MONDAY_OF_FEBRUARY.dom);
    OnePart(All, CRON_DOM);
    OnePart(fifth, CRON_DOW);
    OnlyAll(Split("*", ','));
    OnlyFifth(Split("1#5", ','), fifth);
  }

  lemma OnlyAll(tokens: seq<string>)
    requires forall q :: Says(tokens, CRON_DOM, q) <==> q == All
    ensures ModifiersMean(tokens, CRON_DOM, NONE)
  {
    hide Says;
  }

  lemma OnlyFifth(tokens: seq<string>, fifth: Part)
    requires fifth == NthDow(1, 5) && forall q :: Says(tokens, CRON_DOW, q) <==> q == fifth
    requires forall v :: Hit(tokens, CRON_DOW, v) <==> Hits(fifth, CRON_DOW, v)
    ensures DowMeans(tokens, {}) && ModifiersMean(tokens, CRON_DOW, NONE.(dowNth := [(1, 5)]))
  {
    hide Says, Hit;
    forall e ensures e in [(1, 5)] <==> SaysNthDow(tokens, CRON_DOW, e) {
      if e == (1, 5) {
        var v: nat := 1;
        assert v % 7 == e.0 && Says(tokens, CRON_DOW, NthDow(v, e.1));
      }
    }
  }

  /** Whatever pattern that text is read as, it has a match in 2044 and none within ten years of 2025. */
  lemma FifthMondayFails(cron: CronPattern)
    requires WellFormed(cron) && PatternMeans(Words("0 0 * 2 1#5"), cron)
    ensures SomeMatch(cron) && exists afterMs :: !UtcFinds(cron, afterMs)
  {
    hide WellFormed, PatternMeans, Matches, UtcFinds, Words, AcceptedPattern, MatchInHorizon, SomeMatch, RareLeapDay;
    FifthMondayText();
    HorizonFailsForRareLeapDay();
    SilentToo(Words("0 0 * 2 1#5"), FIFTH_MONDAY_OF_FEBRUARY, cron, Wall(2025, 1, 1, 0, 0, 0), Wall(2044, 2, 29, 0, 0, 0));
  }

  /** Where one reading of a text finds nothing, no reading of it does. */
  lemma SilentToo(words: seq<string>, known: CronPattern, cron: CronPattern, start: Wall, someday: Wall)
    requires WellFormed(known) && PatternMeans(words, known) && WellFormed(cron) && PatternMeans(words, cron)
    requires ValidWall(start) && !MatchInHorizon(known, start) && ValidWall(someday) && Matches(known, someday)
    ensures SomeMatch(cron) && exists afterMs :: !UtcFinds(cron, afterMs)
  {
    hide WellFormed, PatternMeans, Matches, UtcFinds, Seconds;
    forall w ensures Matches(cron, w) <==> Matches(known, w) { SameWordsSameMatches(words, cron, known, w); }
    assert Matches(cron, someday);
    assert !MatchInHorizon(cron, start);
    HorizonsAgree(cron, 1000 * (Seconds(start) - 1));
    EveryStart(start);
  }

  lemma FifthMondayWords()
    ensures Words("0 0 * 2 1#5") == ["0", "0", "*", "2", "1#5"]
  {
    var words := ["0", "0", "*", "2", "1#5"];
    assert words[4..] == ["1#5"] && words[3..][1..] == words[4..] && words[2..][1..] == words[3..] && words[1..][1..] == words[2..];
    assert Join(words[4..], ' ') == "1#5";
    assert Join(words[3..], ' ') == "2 1#5";
    assert Join(words[2..], ' ') == "* 2 1#5";
    assert Join(words[1..], ' ') == "0 * 2 1#5";
    assert Join(words, ' ') == "0 0 * 2 1#5";
    WordsJoin(words);
  }

  // ---- The steps are not enough ----

  lemma MondaysWords()
    ensures Words("* * 2 * * 1") == ["*", "*", "2", "*", "*", "1"]
  {
    var words := ["*", "*", "2", "*", "*", "1"];
    assert words[5..] == ["1"] && words[4..][1..] == words[5..] && words[3..][1..] == words[4..];
    assert words[2..][1..] == words[3..] && words[1..][1..] == words[2..];
    assert Join(words[5..], ' ') == "1";
    assert Join(words[4..], ' ') == "* 1";
    assert Join(words[3..], ' ') == "* * 1";
    assert Join(words[2..], ' ') == "2 * * 1";
    assert Join(words[1..], ' ') == "* 2 * * 1";
    assert Join(words, ' ') == "* * 2 * * 1";
    WordsJoin(words);
  }

  lemma MondaysTimes()
    ensures Accepted("*", CRON_SECOND) && FieldMeans("*", CRON_SECOND, MONDAYS_AT_TWO.second)
    ensures Accepted("*", CRON_MINUTE) && FieldMeans("*", CRON_MINUTE, MONDAYS_AT_TWO.minute)
    ensures Accepted("2", CRON_HOUR) && FieldMeans("2", CRON_HOUR, MONDAYS_AT_TWO.hour)
    ensures Accepted("*", CRON_MONTH) && FieldMeans("*", CRON_MONTH, MONDAYS_AT_TWO.month)
  {
    MonthNamesAreGood();
    assert Render(All) == "*" && Render(Value(2)) == "2";
    hide GoodNames, Accepted, FieldMeans;
    OnePartMeans(All, CRON_SECOND, MONDAYS_AT_TWO.second);
    OnePartMeans(All, CRON_MINUTE, MONDAYS_AT_TWO.minute);
    OnePartMeans(Value(2), CRON_HOUR, MONDAYS_AT_TWO.hour);
    OnePartMeans(All, CRON_MONTH, MONDAYS_AT_TWO.month);
  }

  lemma MondaysDays()
    ensures Accepted("*", CRON_DOM) && FieldMeans("*", CRON_DOM, MONDAYS_AT_TWO.dom)
    ensures ModifiersMean(Split("*", ','), CRON_DOM, NONE)
    ensures Accepted("1", CRON_DOW) && DowMeans(Split("1", ','), {1})
    ensures ModifiersMean(Split("1", ','), CRON_DOW, NONE)
  {
    DayNamesAreGood();
    assert Render(All) == "*" && Render(Value(1)) == "1";
    OnePartMeans(All, CRON_DOM, MONDAYS_AT_TWO.dom);
    OnePart(All, CRON_DOM);
    OnePart(Value(1), CRON_DOW);
    OnlyAll(Split("*", ','));
    OnlyMonday(Split("1", ','));
  }

  lemma OnlyMonday(tokens: seq<string>)
    requires forall q :: Says(tokens, CRON_DOW, q) <==> q == Value(1)
    requires forall v :: Hit(tokens, CRON_DOW, v) <==> Hits(Value(1), CRON_DOW, v)
    ensures DowMeans(tokens, {1}) && ModifiersMean(tokens, CRON_DOW, NONE)
  {
    hide Says, Hit;
  }

  /** `* * 2 * * 1` is accepted, and says every second of the hour from two on Mondays. */
  lemma MondaysText()
    ensures AcceptedPattern(Words("* * 2 * * 1")) && PatternMeans(Words("* * 2 * * 1"), MONDAYS_AT_TWO)
  {
    MondaysWords();
    MondaysTimes();
    MondaysDays();
    hide FieldMeans, DowMeans, ModifiersMean, Accepted, Words, Split;
    var words := ["*", "*", "2", "*", "*", "1"];
    assert FieldTexts(words) == words;
    EveryDay();
  }

  lemma EveryDay()
    ensures forall d :: d in MONDAYS_AT_TWO.dom.values <==> 1 <= d <= 31
    ensures 0 !in MONDAYS_AT_TWO.dow.values
  {}

  lemma ReadAsMondays(cron: CronPattern)
    requires WellFormed(cron) && PatternMeans(Words("* * 2 * * 1"), cron)
    ensures TwoOnMondays(cron)
  {
    hide WellFormed, PatternMeans, Words, AcceptedPattern, Matches, Seconds;
    MondaysText();
    MondaysAreMondays();
    var known := MONDAYS_AT_TWO;
    assert TwoOnMondays(known) && PatternMeans(Words("* * 2 * * 1"), known);
    SameMondays(Words("* * 2 * * 1"), known, cron);
  }

  lemma SameMondays(words: seq<string>, known: CronPattern, cron: CronPattern)
    requires TwoOnMondays(known) && PatternMeans(words, known) && WellFormed(cron) && PatternMeans(words, cron)
    ensures TwoOnMondays(cron)
  {
    hide WellFormed, PatternMeans, Matches, Seconds, InSlot, ValidWall;
    MeaningIsUnique(words, known, cron);
    forall w ensures Matches(cron, w) <==> Matches(known, w) { SameWordsSameMatches(words, cron, known, w); }
  }

  /** Asked from the epoch for the next run of that text in a zone with weekly gaps, the search gives up, although
      the pattern fires in week 61.
  */
  lemma MondaysGiveUp(zone: Timezone.Zone, r: CronTz.NextRun)
    requires SkipsMondays(zone)
    requires exists cron :: WellFormed(cron) && PatternMeans(Words("* * 2 * * 1"), cron) && Outcome(cron, Some(zone), 0, r)
    ensures r.GaveUp? && CronTz.NextFire(MONDAYS_AT_TWO, zone, 0, FIRST_FIRE)
  {
    hide WellFormed, PatternMeans, Words, TwoOnMondays, CronTz.NextFire, CronTz.TooManySkipped, Timezone.ZoneRules, SkipsMondays;
    var cron :| WellFormed(cron) && PatternMeans(Words("* * 2 * * 1"), cron) && Outcome(cron, Some(zone), 0, r);
    ReadAsMondays(cron);
    GivesUpThoughItFires(cron, zone);
    MondaysAreMondays();
    GivesUpThoughItFires(MONDAYS_AT_TWO, zone);
  }
}
