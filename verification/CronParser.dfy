/** The cron parser: five or six fields of comma-separated tokens. */
module CronParser {
  import opened Wrappers
  import opened CronText
  import opened Grid

  datatype Modifiers = NoModifiers | DomModifiers | DowModifiers

  /** A field: its bounds, the names it accepts for numbers, whether '?' is a wildcard, and its day modifiers. */
  datatype FieldSpec = FieldSpec(min: nat, max: nat, names: map<string, nat>, allowQuestion: bool, modifiers: Modifiers)

  const MONTH_NAMES: map<string, nat> := map["JAN" := 1, "FEB" := 2, "MAR" := 3, "APR" := 4, "MAY" := 5, "JUN" := 6,
                                             "JUL" := 7, "AUG" := 8, "SEP" := 9, "OCT" := 10, "NOV" := 11, "DEC" := 12]
  const DOW_NAMES: map<string, nat> := map["SUN" := 0, "MON" := 1, "TUE" := 2, "WED" := 3, "THU" := 4, "FRI" := 5, "SAT" := 6]

  const CRON_SECOND := FieldSpec(0, 59, map[], false, NoModifiers)
  const CRON_MINUTE := FieldSpec(0, 59, map[], false, NoModifiers)
  const CRON_HOUR := FieldSpec(0, 23, map[], false, NoModifiers)
  const CRON_DOM := FieldSpec(1, 31, map[], true, DomModifiers)
  const CRON_MONTH := FieldSpec(1, 12, MONTH_NAMES, false, NoModifiers)
  const CRON_DOW := FieldSpec(0, 7, DOW_NAMES, true, DowModifiers)

  /** What one token says. */
  datatype Part =
    | All
    | Steps(step: nat)
    | Value(value: nat)
    | ValueSteps(from: nat, step: nat)
    | Range(from: nat, to: nat)
    | RangeSteps(from: nat, to: nat, step: nat)
    | LastDay
    | LastWeekday
    | NearestTo(day: nat)
    | LastDow(dow: nat)
    | NthDow(dow: nat, nth: nat)

  // ---- The grammar ----

  /** A number or a name. */
  function ParseValue(token: string, spec: FieldSpec): Option<nat> {
    if IsDigits(token) then Some(ToNat(token))
    else if Upper(token) in spec.names then Some(spec.names[Upper(token)])
    else None
  }

  ghost predicate IsValue(token: string, spec: FieldSpec, v: nat) {
    ParseValue(token, spec) == Some(v)
  }

  ghost predicate IsStep(token: string, step: nat) {
    IsDigits(token) && ToNat(token) == step && step > 0
  }

  /** The token `t` reads as the part `p`. */
  ghost predicate Spells(t: string, spec: FieldSpec, p: Part) {
    match p
    case All => t == "*" || (spec.allowQuestion && t == "?")
    case Steps(step) => exists y :: t == "*/" + y && IsStep(y, step)
    case Value(v) => IsValue(t, spec, v)
    case ValueSteps(v, step) => exists x, y :: t == x + "/" + y && IsValue(x, spec, v) && IsStep(y, step)
    case Range(a, b) => exists x, y :: t == x + "-" + y && IsValue(x, spec, a) && IsValue(y, spec, b)
    case RangeSteps(a, b, step) =>
      exists x, y, z :: t == x + "-" + y + "/" + z && IsValue(x, spec, a) && IsValue(y, spec, b) && IsStep(z, step)
    case LastDay => spec.modifiers.DomModifiers? && Upper(t) == "L"
    case LastWeekday => spec.modifiers.DomModifiers? && Upper(t) == "LW"
    case NearestTo(n) => spec.modifiers.DomModifiers? && exists x, w :: t == x + w && Upper(w) == "W" && IsDigits(x) && ToNat(x) == n
    case LastDow(d) => spec.modifiers.DowModifiers? && exists x, l :: t == x + l && Upper(l) == "L" && IsValue(x, spec, d)
    case NthDow(d, n) => spec.modifiers.DowModifiers? && exists x, y :: t == x + "#" + y && IsValue(x, spec, d) && IsDigits(y) && ToNat(y) == n
  }

  /** The values a part adds to its field. */
  predicate Hits(p: Part, spec: FieldSpec, v: int) {
    match p
    case All => spec.min <= v <= spec.max
    case Steps(step) => step > 0 && v <= spec.max && OnGrid(spec.min, step, v)
    case Value(x) => v == x
    case ValueSteps(from, step) => step > 0 && v <= spec.max && OnGrid(from, step, v)
    case Range(from, to) => from <= v <= to
    case RangeSteps(from, to, step) => step > 0 && v <= to && OnGrid(from, step, v)
    case _ => false
  }

  /** The bounds every accepted part respects. */
  predicate InBounds(p: Part, spec: FieldSpec) {
    match p
    case All => true
    case Steps(step) => step > 0
    case Value(v) => spec.min <= v <= spec.max
    case ValueSteps(from, step) => spec.min <= from <= spec.max && step > 0
    case Range(from, to) => spec.min <= from <= to <= spec.max
    case RangeSteps(from, to, step) => spec.min <= from <= to <= spec.max && step > 0
    case LastDay => true
    case LastWeekday => true
    case NearestTo(n) => 1 <= n <= 31
    case LastDow(d) => 0 <= d <= 7
    case NthDow(d, n) => 0 <= d <= 7 && 1 <= n <= 5
  }

  // ---- Parsing one token ----

  /** 'L', 'LW' and '<n>W' in day-of-month. */
  function ParseDomModifier(t: string): Option<Part> {
    var upper := Upper(t);
    if upper == "L" then Some(LastDay)
    else if upper == "LW" then Some(LastWeekday)
    else if |t| >= 2 && upper[|t| - 1] == 'W' && IsDigits(t[..|t| - 1]) then Some(NearestTo(ToNat(t[..|t| - 1])))
    else None
  }

  /** Position of the last separator. */
  function LastIndex(t: string, sep: char): (i: int)
    ensures -1 <= i < |t|
    ensures i >= 0 ==> t[i] == sep
    ensures forall k :: i < k < |t| ==> t[k] != sep
  {
    if t == [] then -1 else if t[|t| - 1] == sep then |t| - 1 else LastIndex(t[..|t| - 1], sep)
  }

  /** '<d>L' and '<d>#<n>' in day-of-week. */
  function ParseDowModifier(t: string, spec: FieldSpec): Option<Part> {
    if |t| >= 2 && Upper(t)[|t| - 1] == 'L' then
      (match ParseValue(t[..|t| - 1], spec)
       case Some(d) => Some(LastDow(d))
       case None => None)
    else
      var i := LastIndex(t, '#');
      if i >= 1 && IsDigits(t[i + 1..]) then
        (match ParseValue(t[..i], spec)
         case Some(d) => Some(NthDow(d, ToNat(t[i + 1..])))
         case None => None)
      else None
  }

  function ParseModifier(t: string, spec: FieldSpec): Option<Part> {
    match spec.modifiers
    case NoModifiers => None
    case DomModifiers => ParseDomModifier(t)
    case DowModifiers => ParseDowModifier(t, spec)
  }

  /** Every other token: a wildcard, a value or a range, with at most one step behind a slash. */
  function ParseGeneric(t: string, spec: FieldSpec): Option<Part> {
    var slash := Split(t, '/');
    if |slash| > 2 || "" in slash then None
    else if |slash| == 2 && (!IsDigits(slash[1]) || ToNat(slash[1]) == 0) then None
    else if slash[0] == "*" then (if |slash| == 2 then Some(Steps(ToNat(slash[1]))) else Some(All))
    else
      var dash := Split(slash[0], '-');
      if |dash| > 2 || "" in dash then None
      else
        match ParseValue(dash[0], spec)
        case None => None
        case Some(from) =>
          if |dash| == 2 then
            (match ParseValue(dash[1], spec)
             case None => None
             case Some(to) => if |slash| == 2 then Some(RangeSteps(from, to, ToNat(slash[1]))) else Some(Range(from, to)))
          else if |slash| == 2 then Some(ValueSteps(from, ToNat(slash[1])))
          else Some(Value(from))
  }

  function ParsePart(t: string, spec: FieldSpec): Option<Part> {
    if t == "*" || (spec.allowQuestion && t == "?") then Some(All)
    else if ParseModifier(t, spec).Some? then ParseModifier(t, spec)
    else ParseGeneric(t, spec)
  }

  // ---- The parser reads exactly the grammar ----

  predicate ThreeLetters(k: string) {
    |k| == 3 && 'A' <= k[0] <= 'Z' && 'A' <= k[1] <= 'Z' && 'A' <= k[2] <= 'Z'
  }

  /** Names are three letters, so they cannot be taken for numbers, separators or modifiers. */
  ghost predicate GoodNames(spec: FieldSpec) {
    forall k :: k in spec.names ==> ThreeLetters(k)
  }

  lemma MonthNamesAreGood()
    ensures GoodNames(CRON_MONTH)
  {
    assert ThreeLetters("JAN") && ThreeLetters("FEB") && ThreeLetters("MAR") && ThreeLetters("APR");
    assert ThreeLetters("MAY") && ThreeLetters("JUN") && ThreeLetters("JUL") && ThreeLetters("AUG");
    assert ThreeLetters("SEP") && ThreeLetters("OCT") && ThreeLetters("NOV") && ThreeLetters("DEC");
    hide ThreeLetters;
    assert MONTH_NAMES.Keys == {"JAN", "FEB", "MAR", "APR", "MAY", "JUN", "JUL", "AUG", "SEP", "OCT", "NOV", "DEC"};
  }

  lemma DayNamesAreGood()
    ensures GoodNames(CRON_DOW)
  {
    assert ThreeLetters("SUN") && ThreeLetters("MON") && ThreeLetters("TUE") && ThreeLetters("WED");
    assert ThreeLetters("THU") && ThreeLetters("FRI") && ThreeLetters("SAT");
    hide ThreeLetters;
    assert DOW_NAMES.Keys == {"SUN", "MON", "TUE", "WED", "THU", "FRI", "SAT"};
  }

  predicate IsSeparator(c: char) {
    c == '/' || c == '-' || c == '*' || c == '#' || c == '?'
  }

  /** A value is digits, or three letters; in no case does it hold a separator. */
  lemma ValueText(x: string, spec: FieldSpec, v: nat)
    requires GoodNames(spec) && IsValue(x, spec, v)
    ensures x != [] && forall c :: c in x ==> !IsSeparator(c)
    ensures IsDigits(x) || (|x| == 3 && forall c :: c in x ==> !IsDigit(c))
  {
    if !IsDigits(x) {
      assert ThreeLetters(Upper(x));
      forall i | 0 <= i < |x| ensures !IsSeparator(x[i]) && !IsDigit(x[i]) { assert Upper(x)[i] == UpperChar(x[i]); }
    }
  }

  lemma DigitsText(y: string)
    requires IsDigits(y)
    ensures y != [] && (forall c :: c in y ==> !IsSeparator(c)) && IsDigit(y[|y| - 1])
  {
    assert y[|y| - 1] in y;
  }

  /** A token with a separator inside is no day modifier, unless the separator is the '#'. */
  lemma SeparatorIsNoModifier(t: string, spec: FieldSpec, i: nat)
    requires GoodNames(spec) && i < |t| && IsSeparator(t[i]) && '#' !in t
    ensures ParseModifier(t, spec).None?
  {
    assert Upper(t)[i] == t[i];
    if i < |t| - 1 {
      assert t[i] in t[..|t| - 1];
      NotValue(t[..|t| - 1], spec, t[i]);
    }
    NoHash(t);
  }

  lemma NotValue(x: string, spec: FieldSpec, c: char)
    requires GoodNames(spec) && c in x && IsSeparator(c)
    ensures ParseValue(x, spec).None? && !IsDigits(x)
  {
    if ParseValue(x, spec).Some? { ValueText(x, spec, ParseValue(x, spec).value); }
  }

  lemma NoHash(t: string)
    requires '#' !in t
    ensures LastIndex(t, '#') == -1
  {}

  lemma ValueIsNoModifier(t: string, spec: FieldSpec, v: nat)
    requires GoodNames(spec) && IsValue(t, spec, v)
    ensures ParseModifier(t, spec).None?
  {
    ValueText(t, spec, v);
    assert '#' !in t;
    NoHash(t);
    assert t[|t| - 1] in t && Upper(t)[|t| - 1] == UpperChar(t[|t| - 1]) && Upper(t)[0] == UpperChar(t[0]);
    if IsDigits(t) {
      assert IsDigit(t[|t| - 1]) && IsDigit(t[0]);
    } else {
      assert t[0] in t[..|t| - 1] && t[0] in t;
      assert |Upper(t[..2])| == 2;
    }
  }

  lemma OnePiece(t: string, sep: char)
    requires sep !in t
    ensures Split(t, sep) == [t]
  {
    SplitNone(t, sep);
  }

  lemma TwoPieces(a: string, sep: char, b: string)
    requires sep !in a && sep !in b
    ensures Split(a + [sep] + b, sep) == [a, b]
  {
    SplitFirst(a, sep, b);
    SplitNone(b, sep);
  }

  lemma ReadsSteps(t: string, spec: FieldSpec, y: string, step: nat)
    requires GoodNames(spec) && t == "*/" + y && IsStep(y, step)
    ensures ParsePart(t, spec) == Some(Steps(step))
  {
    DigitsText(y);
    SeparatorIsNoModifier(t, spec, 1);
    assert t == "*" + ['/'] + y;
    TwoPieces("*", '/', y);
  }

  lemma ReadsValue(t: string, spec: FieldSpec, v: nat)
    requires GoodNames(spec) && IsValue(t, spec, v)
    ensures ParsePart(t, spec) == Some(Value(v))
  {
    ValueText(t, spec, v);
    ValueIsNoModifier(t, spec, v);
    OnePiece(t, '/');
    OnePiece(t, '-');
    assert t[0] in t;
  }

  lemma ReadsValueSteps(t: string, spec: FieldSpec, x: string, y: string, v: nat, step: nat)
    requires GoodNames(spec) && t == x + "/" + y && IsValue(x, spec, v) && IsStep(y, step)
    ensures ParsePart(t, spec) == Some(ValueSteps(v, step))
  {
    ValueText(x, spec, v);
    DigitsText(y);
    assert t[|x|] == '/';
    SeparatorIsNoModifier(t, spec, |x|);
    TwoPieces(x, '/', y);
    OnePiece(x, '-');
    assert x[0] in x;
  }

  lemma ReadsRange(t: string, spec: FieldSpec, x: string, y: string, a: nat, b: nat)
    requires GoodNames(spec) && t == x + "-" + y && IsValue(x, spec, a) && IsValue(y, spec, b)
    ensures ParsePart(t, spec) == Some(Range(a, b))
  {
    ValueText(x, spec, a);
    ValueText(y, spec, b);
    assert t[|x|] == '-';
    SeparatorIsNoModifier(t, spec, |x|);
    OnePiece(t, '/');
    TwoPieces(x, '-', y);
    assert x[0] in x && t[0] == x[0];
  }

  lemma ReadsRangeSteps(t: string, spec: FieldSpec, x: string, y: string, z: string, a: nat, b: nat, step: nat)
    requires GoodNames(spec) && t == x + "-" + y + "/" + z && IsValue(x, spec, a) && IsValue(y, spec, b) && IsStep(z, step)
    ensures ParsePart(t, spec) == Some(RangeSteps(a, b, step))
  {
    ValueText(x, spec, a);
    ValueText(y, spec, b);
    DigitsText(z);
    var r := x + "-" + y;
    assert t[|x|] == '-';
    SeparatorIsNoModifier(t, spec, |x|);
    TwoPieces(r, '/', z);
    TwoPieces(x, '-', y);
    assert x[0] in x && r[0] == x[0];
  }

  lemma ReadsNearest(t: string, spec: FieldSpec, x: string, w: string, n: nat)
    requires spec.modifiers.DomModifiers? && t == x + w && Upper(w) == "W" && IsDigits(x) && ToNat(x) == n
    ensures ParsePart(t, spec) == Some(NearestTo(n))
  {
    DigitsText(x);
    assert t[..|t| - 1] == x && Upper(t)[|t| - 1] == UpperChar(w[0]) == Upper(w)[0];
    assert Upper(t)[0] == UpperChar(x[0]) && x[0] in x;
  }

  lemma ReadsLastDow(t: string, spec: FieldSpec, x: string, l: string, d: nat)
    requires GoodNames(spec) && spec.modifiers.DowModifiers? && t == x + l && Upper(l) == "L" && IsValue(x, spec, d)
    ensures ParsePart(t, spec) == Some(LastDow(d))
  {
    ValueText(x, spec, d);
    assert t[..|t| - 1] == x && Upper(t)[|t| - 1] == UpperChar(l[0]) == Upper(l)[0];
  }

  lemma ReadsNthDow(t: string, spec: FieldSpec, x: string, y: string, d: nat, n: nat)
    requires GoodNames(spec) && spec.modifiers.DowModifiers? && t == x + "#" + y && IsValue(x, spec, d) && IsDigits(y) && ToNat(y) == n
    ensures ParsePart(t, spec) == Some(NthDow(d, n))
  {
    ValueText(x, spec, d);
    DigitsText(y);
    LastHash(x, y);
    NotEndingInL(t, y[|y| - 1]);
    assert t[..|x|] == x && t[|x| + 1..] == y;
    assert t[|x|] == '#';
    hide LastIndex, ToNat, Upper, ParseGeneric;
    assert ParseDowModifier(t, spec) == Some(NthDow(d, n));
  }

  lemma NotEndingInL(t: string, c: char)
    requires t != [] && t[|t| - 1] == c && IsDigit(c)
    ensures Upper(t)[|t| - 1] != 'L'
  {}

  lemma {:induction false} LastHash(x: string, y: string)
    requires '#' !in y
    ensures LastIndex(x + "#" + y, '#') == |x|
    decreases |y|
  {
    var t := x + "#" + y;
    if y != [] {
      assert t[|t| - 1] == y[|y| - 1] && y[|y| - 1] in y;
      assert t[..|t| - 1] == x + "#" + y[..|y| - 1];
      LastHash(x, y[..|y| - 1]);
    }
  }

  /** Every spelling of a part is read as that part. */
  lemma ReadsEverySpelling(t: string, spec: FieldSpec, p: Part)
    requires GoodNames(spec) && Spells(t, spec, p)
    ensures ParsePart(t, spec) == Some(p)
  {
    hide ParsePart, IsValue, IsStep;
    match p
    case All => ReadsAll(t, spec);
    case Steps(step) =>
      var y :| t == "*/" + y && IsStep(y, step);
      ReadsSteps(t, spec, y, step);
    case Value(v) => ReadsValue(t, spec, v);
    case ValueSteps(v, step) =>
      var x, y :| t == x + "/" + y && IsValue(x, spec, v) && IsStep(y, step);
      ReadsValueSteps(t, spec, x, y, v, step);
    case Range(a, b) =>
      var x, y :| t == x + "-" + y && IsValue(x, spec, a) && IsValue(y, spec, b);
      ReadsRange(t, spec, x, y, a, b);
    case RangeSteps(a, b, step) =>
      var x, y, z :| t == x + "-" + y + "/" + z && IsValue(x, spec, a) && IsValue(y, spec, b) && IsStep(z, step);
      ReadsRangeSteps(t, spec, x, y, z, a, b, step);
    case LastDay => ReadsLast(t, spec);
    case LastWeekday => ReadsLast(t, spec);
    case NearestTo(n) =>
      var x, w :| t == x + w && Upper(w) == "W" && IsDigits(x) && ToNat(x) == n;
      ReadsNearest(t, spec, x, w, n);
    case LastDow(d) =>
      var x, l :| t == x + l && Upper(l) == "L" && IsValue(x, spec, d);
      ReadsLastDow(t, spec, x, l, d);
    case NthDow(d, n) =>
      var x, y :| t == x + "#" + y && IsValue(x, spec, d) && IsDigits(y) && ToNat(y) == n;
      ReadsNthDow(t, spec, x, y, d, n);
  }

  lemma ReadsAll(t: string, spec: FieldSpec)
    requires t == "*" || (spec.allowQuestion && t == "?")
    ensures ParsePart(t, spec) == Some(All)
  {}

  lemma ReadsLast(t: string, spec: FieldSpec)
    requires spec.modifiers.DomModifiers?
    ensures Upper(t) == "L" ==> ParsePart(t, spec) == Some(LastDay)
    ensures Upper(t) == "LW" ==> ParsePart(t, spec) == Some(LastWeekday)
  {
    assert Upper("*") == "*" && Upper("?") == "?";
  }

  // ---- ... and nothing else ----

  lemma GenericIsSpelled(t: string, spec: FieldSpec)
    requires ParseGeneric(t, spec).Some?
    ensures Spells(t, spec, ParseGeneric(t, spec).value)
  {
    var slash := Split(t, '/');
    JoinSplit(t, '/');
    assert |slash| == 1 ==> t == slash[0];
    assert |slash| == 2 ==> t == slash[0] + "/" + slash[1] by {
      if |slash| == 2 { assert slash[1..] == [slash[1]]; }
    }
    assert |slash| == 2 ==> slash[1] in slash && IsStep(slash[1], ToNat(slash[1]));
    if slash[0] == "*" {
      if |slash| == 2 { assert t == "*/" + slash[1]; }
    } else {
      var dash := Split(slash[0], '-');
      JoinSplit(slash[0], '-');
      assert |dash| == 1 ==> slash[0] == dash[0];
      assert |dash| == 2 ==> slash[0] == dash[0] + "-" + dash[1] by {
        if |dash| == 2 { assert dash[1..] == [dash[1]]; }
      }
      var from := ParseValue(dash[0], spec).value;
      assert IsValue(dash[0], spec, from);
      if |dash| == 2 { assert IsValue(dash[1], spec, ParseValue(dash[1], spec).value); }
    }
  }

  lemma LastLetter(t: string, init: string, c: char)
    requires t == init + [c]
    ensures |Upper(t)| == |t| && Upper([c]) == [Upper(t)[|t| - 1]]
  {
    hide Upper;
    assert t[|t| - 1] == c;
  }

  lemma DomModifierIsSpelled(t: string, spec: FieldSpec)
    requires spec.modifiers.DomModifiers? && ParseDomModifier(t).Some?
    ensures Spells(t, spec, ParseDomModifier(t).value)
  {
    if Upper(t) != "L" && Upper(t) != "LW" {
      hide Upper, ToNat;
      var init, c := t[..|t| - 1], t[|t| - 1];
      assert t == init + [c];
      LastLetter(t, init, c);
      assert Upper([c]) == "W";
    }
  }

  lemma DowModifierIsSpelled(t: string, spec: FieldSpec)
    requires spec.modifiers.DowModifiers? && ParseDowModifier(t, spec).Some?
    ensures Spells(t, spec, ParseDowModifier(t, spec).value)
  {
    hide Upper, ToNat, ParseValue;
    if |t| >= 2 && Upper(t)[|t| - 1] == 'L' {
      var init, c := t[..|t| - 1], t[|t| - 1];
      assert t == init + [c];
      LastLetter(t, init, c);
      assert Upper([c]) == "L" && IsValue(init, spec, ParseValue(init, spec).value);
    } else {
      var i := LastIndex(t, '#');
      assert t == t[..i] + "#" + t[i + 1..];
      assert IsValue(t[..i], spec, ParseValue(t[..i], spec).value);
    }
  }

  lemma ModifierIsSpelled(t: string, spec: FieldSpec)
    requires ParseModifier(t, spec).Some?
    ensures Spells(t, spec, ParseModifier(t, spec).value)
  {
    hide ParseDomModifier, ParseDowModifier, Spells;
    if spec.modifiers.DomModifiers? { DomModifierIsSpelled(t, spec); } else { DowModifierIsSpelled(t, spec); }
  }

  /** The parser accepts a token as a part exactly when the token spells that part. */
  lemma ReadsExactly(t: string, spec: FieldSpec, p: Part)
    requires GoodNames(spec)
    ensures ParsePart(t, spec) == Some(p) <==> Spells(t, spec, p)
  {
    hide Spells, ParseModifier, ParseGeneric;
    if Spells(t, spec, p) { ReadsEverySpelling(t, spec, p); }
    if ParsePart(t, spec) == Some(p) {
      if t == "*" || (spec.allowQuestion && t == "?") {
        WildcardIsSpelled(t, spec);
      } else if ParseModifier(t, spec).Some? {
        ModifierIsSpelled(t, spec);
      } else {
        GenericIsSpelled(t, spec);
      }
    }
  }

  lemma WildcardIsSpelled(t: string, spec: FieldSpec)
    requires t == "*" || (spec.allowQuestion && t == "?")
    ensures Spells(t, spec, All)
  {}
}
