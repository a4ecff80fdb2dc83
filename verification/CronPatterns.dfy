/** What a field and a whole cron pattern say, and the parser that collects it. */
module CronPatterns {
  import opened Wrappers
  import opened Sequences
  import opened Calendar
  import opened CronText
  import opened CronDays
  import opened CronParser
  import opened Grid

  // ---- One field ----

  /** The day modifiers collected while a field is parsed. */
  datatype DayModifiers = DayModifiers(domLast: bool, domLastWeekday: bool, domNearestWeekday: seq<int>, dowLast: set<int>, dowNth: seq<(int, int)>)

  const NONE := DayModifiers(false, false, [], {}, [])

  function Modify(mods: DayModifiers, p: Part): DayModifiers {
    match p
    case LastDay => mods.(domLast := true)
    case LastWeekday => mods.(domLastWeekday := true)
    case NearestTo(n) => mods.(domNearestWeekday := mods.domNearestWeekday + [n])
    case LastDow(d) => mods.(dowLast := mods.dowLast + {d % 7})
    case NthDow(d, n) => mods.(dowNth := mods.dowNth + [(d % 7, n)])
    case _ => mods
  }

  /** One of the tokens spells the part. */
  ghost predicate Says(tokens: seq<string>, spec: FieldSpec, p: Part) {
    exists t :: t in tokens && Spells(t, spec, p)
  }

  ghost predicate AcceptedToken(t: string, spec: FieldSpec) {
    exists p :: Spells(t, spec, p) && InBounds(p, spec)
  }

  ghost predicate Accepted(field: string, spec: FieldSpec) {
    forall t :: t in Split(field, ',') ==> AcceptedToken(t, spec)
  }

  /** The values are exactly those some token of the field hits. */
  ghost predicate Means(tokens: seq<string>, spec: FieldSpec, values: set<int>) {
    forall v :: v in values <==> Hit(tokens, spec, v)
  }

  ghost predicate Hit(tokens: seq<string>, spec: FieldSpec, v: int) {
    exists p :: Says(tokens, spec, p) && Hits(p, spec, v)
  }

  ghost predicate SaysNearest(tokens: seq<string>, spec: FieldSpec, n: int) {
    n >= 0 && Says(tokens, spec, NearestTo(n))
  }

  ghost predicate SaysLastDow(tokens: seq<string>, spec: FieldSpec, d: int) {
    exists v: nat :: v % 7 == d && Says(tokens, spec, LastDow(v))
  }

  ghost predicate SaysNthDow(tokens: seq<string>, spec: FieldSpec, e: (int, int)) {
    e.1 >= 0 && exists v: nat :: v % 7 == e.0 && Says(tokens, spec, NthDow(v, e.1))
  }

  /** The modifiers are exactly those the tokens spell, and in bounds. */
  ghost predicate ModifiersMean(tokens: seq<string>, spec: FieldSpec, mods: DayModifiers) {
    && (mods.domLast <==> Says(tokens, spec, LastDay))
    && (mods.domLastWeekday <==> Says(tokens, spec, LastWeekday))
    && (forall n :: n in mods.domNearestWeekday <==> SaysNearest(tokens, spec, n))
    && (forall n :: n in mods.domNearestWeekday ==> 1 <= n <= 31)
    && (forall d :: d in mods.dowLast <==> SaysLastDow(tokens, spec, d))
    && (forall e :: e in mods.dowNth <==> SaysNthDow(tokens, spec, e))
    && (forall e :: e in mods.dowNth ==> 1 <= e.1 <= 5)
  }

  /** One more part is said. */
  ghost predicate SaysMore(before: seq<string>, after: seq<string>, spec: FieldSpec, part: Part) {
    forall p :: Says(after, spec, p) <==> Says(before, spec, p) || p == part
  }

  lemma SaysStep(tokens: seq<string>, i: nat, spec: FieldSpec, part: Part)
    requires i < |tokens| && GoodNames(spec) && ParsePart(tokens[i], spec) == Some(part)
    ensures SaysMore(tokens[..i], tokens[..i + 1], spec, part)
  {
    hide Spells, ParsePart;
    var before, after := tokens[..i], tokens[..i + 1];
    assert after == before + [tokens[i]];
    forall p ensures Says(after, spec, p) <==> Says(before, spec, p) || p == part {
      ReadsExactly(tokens[i], spec, p);
      if p == part { assert tokens[i] in after && Spells(tokens[i], spec, p); }
      if Says(before, spec, p) {
        var t :| t in before && Spells(t, spec, p);
        assert t in after;
      }
    }
  }

  /** Adds every step-th value of a range. */
  method AddRange(values: set<int>, from: int, last: int, step: int) returns (r: set<int>)
    requires step > 0
    ensures forall v :: v in r <==> v in values || (v <= last && OnGrid(from, step, v))
  {
    r := values;
    var i := from;
    assert OnGrid(from, step, from);
    while i <= last
      invariant OnGrid(from, step, i)
      invariant forall v :: v in r <==> v in values || (v <= last && v < i && OnGrid(from, step, v))
      decreases last - i
    {
      GridNext(from, step, i);
      r := r + {i};
      i := i + step;
    }
  }

  /** The grid point after `i` is one step on. */
  lemma GridNext(from: int, step: int, i: int)
    requires step > 0 && OnGrid(from, step, i)
    ensures OnGrid(from, step, i + step) && forall v :: OnGrid(from, step, v) && v > i ==> v >= i + step
  {
    var k := GridIndex(from, step, i);
    assert (k + 1) * step == k * step + step;
    GridPoint(from, step, k + 1);
    forall v | OnGrid(from, step, v) && v > i ensures v >= i + step {
      GridGap(from, step, i + step, v, i + 1);
    }
  }

  lemma AllIsRange(spec: FieldSpec)
    ensures forall v :: Hits(All, spec, v) <==> v <= spec.max && OnGrid(spec.min, 1, v)
  {}

  /** Adds what a part hits. */
  method AddPart(values: set<int>, p: Part, spec: FieldSpec) returns (r: set<int>)
    requires InBounds(p, spec)
    ensures forall v :: v in r <==> v in values || Hits(p, spec, v)
  {
    match p
    case All =>
      AllIsRange(spec);
      r := AddRange(values, spec.min, spec.max, 1);
    case Steps(step) => r := AddRange(values, spec.min, spec.max, step);
    case Value(v) => r := values + {v};
    case ValueSteps(from, step) => r := AddRange(values, from, spec.max, step);
    case Range(from, to) =>
      r := AddRange(values, from, to, 1);
      assert forall v :: Hits(p, spec, v) <==> v <= to && OnGrid(from, 1, v);
    case RangeSteps(from, to, step) => r := AddRange(values, from, to, step);
    case _ => r := values;
  }

  lemma HitsAreInBounds(p: Part, spec: FieldSpec, v: int)
    requires InBounds(p, spec) && Hits(p, spec, v)
    ensures spec.min <= v <= spec.max
  {}

  /** The values in ascending order. */
  method Sort(values: set<int>, min: int, max: int) returns (sorted: seq<int>)
    requires min <= max && forall v :: v in values ==> min <= v <= max
    ensures FieldIn(CronField(values, sorted), min, max)
  {
    sorted := [];
    for i := min to max + 1
      invariant Ascending(sorted) && forall v :: v in sorted <==> v in values && v < i
    {
      assert forall k :: 0 <= k < |sorted| ==> sorted[k] in sorted && sorted[k] < i;
      if i in values { sorted := sorted + [i]; }
    }
  }

  /** What is known after the first tokens of a field. */
  ghost predicate ParsedSoFar(tokens: seq<string>, spec: FieldSpec, values: set<int>, mods: DayModifiers) {
    Means(tokens, spec, values) && ModifiersMean(tokens, spec, mods) && forall v :: v in values ==> spec.min <= v <= spec.max
  }

  lemma NothingSaid(spec: FieldSpec)
    ensures ParsedSoFar([], spec, {}, NONE)
  {}

  lemma ParsedStep(tokens: seq<string>, i: nat, spec: FieldSpec, part: Part, values: set<int>, mods: DayModifiers, values': set<int>)
    requires i < |tokens| && GoodNames(spec) && ParsePart(tokens[i], spec) == Some(part) && InBounds(part, spec)
    requires ParsedSoFar(tokens[..i], spec, values, mods) && forall v :: v in values' <==> v in values || Hits(part, spec, v)
    ensures ParsedSoFar(tokens[..i + 1], spec, values', Modify(mods, part))
  {
    hide Says, Hits;
    SaysStep(tokens, i, spec, part);
    MeansStep(tokens[..i], tokens[..i + 1], spec, part, values, values');
    ModifiersStep(tokens[..i], tokens[..i + 1], spec, part, mods);
    forall v | v in values' ensures spec.min <= v <= spec.max {
      if v !in values { HitsAreInBounds(part, spec, v); }
    }
  }

  lemma MeansStep(before: seq<string>, after: seq<string>, spec: FieldSpec, part: Part, values: set<int>, values': set<int>)
    requires Means(before, spec, values) && SaysMore(before, after, spec, part)
    requires forall v :: v in values' <==> v in values || Hits(part, spec, v)
    ensures Means(after, spec, values')
  {
    hide Says, Hits;
    forall v ensures v in values' <==> Hit(after, spec, v) {
      assert v in values <==> Hit(before, spec, v);
      if Hit(before, spec, v) {
        var p :| Says(before, spec, p) && Hits(p, spec, v);
        assert Says(after, spec, p);
      }
      assert Says(after, spec, part);
    }
  }

  lemma ModifiersStep(before: seq<string>, after: seq<string>, spec: FieldSpec, part: Part, mods: DayModifiers)
    requires ModifiersMean(before, spec, mods) && InBounds(part, spec)
    requires SaysMore(before, after, spec, part)
    ensures ModifiersMean(after, spec, Modify(mods, part))
  {
    hide Says;
    var mods' := Modify(mods, part);
    forall n ensures n in mods'.domNearestWeekday <==> SaysNearest(after, spec, n) {
      assert n in mods.domNearestWeekday <==> SaysNearest(before, spec, n);
    }
    forall d ensures d in mods'.dowLast <==> SaysLastDow(after, spec, d) {
      assert d in mods.dowLast <==> SaysLastDow(before, spec, d);
    }
    forall e ensures e in mods'.dowNth <==> SaysNthDow(after, spec, e) {
      assert e in mods.dowNth <==> SaysNthDow(before, spec, e);
    }
  }

  /** Accepts exactly the fields whose tokens all spell parts in bounds, and collects what they say. */
  method ParseCronField(field: string, spec: FieldSpec) returns (r: Result<(CronField, DayModifiers), string>)
    requires GoodNames(spec) && spec.min <= spec.max
    ensures r.Ok? <==> Accepted(field, spec)
    ensures r.Ok? ==> FieldIn(r.value.0, spec.min, spec.max) && ParsedSoFar(Split(field, ','), spec, r.value.0.values, r.value.1)
  {
    hide Spells, ParsePart, Means, ModifiersMean, InBounds, Hits;
    var parts := Split(field, ',');
    var values, mods := {}, NONE;
    NothingSaid(spec);
    for i := 0 to |parts|
      invariant ParsedSoFar(parts[..i], spec, values, mods)
      invariant forall t :: t in parts[..i] ==> AcceptedToken(t, spec)
    {
      var token := parts[i];
      TokenAccepted(token, spec);
      var part := ParsePart(token, spec);
      if part.None? { return Err("Invalid cron token"); }
      if !InBounds(part.value, spec) { return Err("Cron value out of bounds"); }
      ghost var before := values;
      values := AddPart(values, part.value, spec);
      ParsedStep(parts, i, spec, part.value, before, mods, values);
      mods := Modify(mods, part.value);
    }
    assert parts[..|parts|] == parts;
    var sorted := Sort(values, spec.min, spec.max);
    r := Ok((CronField(values, sorted), mods));
  }

  lemma TokenAccepted(t: string, spec: FieldSpec)
    requires GoodNames(spec)
    ensures AcceptedToken(t, spec) <==> ParsePart(t, spec).Some? && InBounds(ParsePart(t, spec).value, spec)
  {
    hide Spells, ParsePart, InBounds;
    if AcceptedToken(t, spec) {
      var p :| Spells(t, spec, p) && InBounds(p, spec);
      ReadsExactly(t, spec, p);
    }
    if ParsePart(t, spec).Some? { ReadsExactly(t, spec, ParsePart(t, spec).value); }
  }

  // ---- Writing a field ----

  /** The usual spelling of a part, with numbers for names. */
  function Render(p: Part): string {
    match p
    case All => "*"
    case Steps(step) => "*/" + Decimal(step)
    case Value(v) => Decimal(v)
    case ValueSteps(from, step) => Decimal(from) + "/" + Decimal(step)
    case Range(from, last) => Decimal(from) + "-" + Decimal(last)
    case RangeSteps(from, last, step) => Decimal(from) + "-" + Decimal(last) + "/" + Decimal(step)
    case LastDay => "L"
    case LastWeekday => "LW"
    case NearestTo(n) => Decimal(n) + "W"
    case LastDow(d) => Decimal(d) + "L"
    case NthDow(d, n) => Decimal(d) + "#" + Decimal(n)
  }

  /** Modifiers belong in their own field. */
  predicate Fits(p: Part, spec: FieldSpec) {
    match p
    case LastDay => spec.modifiers.DomModifiers?
    case LastWeekday => spec.modifiers.DomModifiers?
    case NearestTo(_) => spec.modifiers.DomModifiers?
    case LastDow(_) => spec.modifiers.DowModifiers?
    case NthDow(_, _) => spec.modifiers.DowModifiers?
    case _ => true
  }

  lemma DecimalIsValue(n: nat, spec: FieldSpec)
    ensures IsValue(Decimal(n), spec, n) && (n > 0 ==> IsStep(Decimal(n), n))
  {
    DecimalIsRead(n);
  }

  /** Parsing undoes writing: a written part is read as itself. */
  lemma RenderedIsRead(p: Part, spec: FieldSpec)
    requires GoodNames(spec) && Fits(p, spec) && InBounds(p, spec)
    ensures ParsePart(Render(p), spec) == Some(p)
  {
    hide ParsePart, IsValue, IsStep, Decimal, ToNat;
    match p {
      case All =>
      case Steps(step) => DecimalIsValue(step, spec);
      case Value(v) => DecimalIsValue(v, spec);
      case ValueSteps(from, step) => DecimalIsValue(from, spec); DecimalIsValue(step, spec);
      case Range(from, last) => DecimalIsValue(from, spec); DecimalIsValue(last, spec);
      case RangeSteps(from, last, step) => DecimalIsValue(from, spec); DecimalIsValue(last, spec); DecimalIsValue(step, spec);
      case LastDay => assert Upper("L") == "L";
      case LastWeekday => assert Upper("LW") == "LW";
      case NearestTo(n) => DecimalIsRead(n); assert Upper("W") == "W";
      case LastDow(d) => DecimalIsValue(d, spec); assert Upper("L") == "L";
      case NthDow(d, n) => DecimalIsValue(d, spec); DecimalIsRead(n);
    }
    ReadsEverySpelling(Render(p), spec, p);
  }

  function RenderAll(parts: seq<Part>): (tokens: seq<string>)
    ensures |tokens| == |parts| && forall i :: 0 <= i < |parts| ==> tokens[i] == Render(parts[i])
  {
    if parts == [] then [] else [Render(parts[0])] + RenderAll(parts[1..])
  }

  lemma NoComma(p: Part)
    ensures ',' !in Render(p)
  {
    hide Decimal;
  }

  /** Writing parts as a field and parsing it back gives the same parts. */
  lemma RenderedFieldIsRead(parts: seq<Part>, spec: FieldSpec)
    requires GoodNames(spec) && |parts| >= 1 && forall p :: p in parts ==> Fits(p, spec) && InBounds(p, spec)
    ensures var field := Join(RenderAll(parts), ',');
      Accepted(field, spec) && forall p :: Says(Split(field, ','), spec, p) <==> p in parts
  {
    var tokens := RenderAll(parts);
    var field := Join(tokens, ',');
    hide Render, Spells, ParsePart, InBounds, Fits;
    forall t | t in tokens ensures ',' !in t {
      var i :| 0 <= i < |tokens| && tokens[i] == t;
      NoComma(parts[i]);
    }
    SplitJoin(tokens, ',');
    forall i | 0 <= i < |parts| ensures Spells(tokens[i], spec, parts[i]) && InBounds(parts[i], spec) {
      assert parts[i] in parts;
      RenderedIsRead(parts[i], spec);
      ReadsExactly(tokens[i], spec, parts[i]);
    }
    forall t | t in tokens ensures AcceptedToken(t, spec) {
      var i :| 0 <= i < |tokens| && tokens[i] == t;
      assert Spells(t, spec, parts[i]);
    }
    forall p ensures Says(tokens, spec, p) <==> p in parts {
      if Says(tokens, spec, p) {
        var t :| t in tokens && Spells(t, spec, p);
        var i :| 0 <= i < |tokens| && tokens[i] == t;
        ReadsExactly(t, spec, p);
        ReadsExactly(t, spec, parts[i]);
      }
      if p in parts {
        var i :| 0 <= i < |parts| && parts[i] == p;
        assert tokens[i] in tokens && Spells(tokens[i], spec, p);
      }
    }
  }

  /** A field of one written part says that part, and means what it hits. */
  lemma OnePart(p: Part, spec: FieldSpec)
    requires GoodNames(spec) && Fits(p, spec) && InBounds(p, spec)
    ensures Accepted(Render(p), spec)
    ensures forall q :: Says(Split(Render(p), ','), spec, q) <==> q == p
    ensures forall v :: Hit(Split(Render(p), ','), spec, v) <==> Hits(p, spec, v)
  {
    hide Says, Hits, Render, Accepted, Fits;
    RenderedFieldIsRead([p], spec);
    assert RenderAll([p]) == [Render(p)];
    assert Join([Render(p)], ',') == Render(p);
    var tokens := Split(Render(p), ',');
    forall v ensures Hit(tokens, spec, v) <==> Hits(p, spec, v) {
      assert Says(tokens, spec, p);
    }
  }

  // ---- The whole pattern ----

  /** The six field texts of a pattern of five or six words. */
  function FieldTexts(words: seq<string>): (fields: seq<string>)
    requires |words| == 5 || |words| == 6
    ensures |fields| == 6
  {
    if |words| == 6 then words else ["0"] + words
  }

  ghost predicate AcceptedPattern(words: seq<string>) {
    && (|words| == 5 || |words| == 6)
    && var f := FieldTexts(words);
       && Accepted(f[0], CRON_SECOND) && Accepted(f[1], CRON_MINUTE) && Accepted(f[2], CRON_HOUR)
       && Accepted(f[3], CRON_DOM) && Accepted(f[4], CRON_MONTH) && Accepted(f[5], CRON_DOW)
  }

  /** Sunday may be written 0 or 7. */
  ghost predicate DowMeans(tokens: seq<string>, values: set<int>) {
    forall v :: v in values <==> v != 7 && (Hit(tokens, CRON_DOW, v) || (v == 0 && Hit(tokens, CRON_DOW, 7)))
  }

  ghost predicate FieldMeans(text: string, spec: FieldSpec, f: CronField) {
    Means(Split(text, ','), spec, f.values)
  }

  lemma OnePartMeans(p: Part, spec: FieldSpec, f: CronField)
    requires GoodNames(spec) && Fits(p, spec) && InBounds(p, spec) && forall v :: v in f.values <==> Hits(p, spec, v)
    ensures Accepted(Render(p), spec) && FieldMeans(Render(p), spec, f)
  {
    hide Hit, Hits, Render, Fits, InBounds, Accepted, GoodNames;
    OnePart(p, spec);
    forall v ensures v in f.values <==> Hit(Split(Render(p), ','), spec, v) {}
  }

  /** The parsed pattern is exactly what the field texts say. */
  ghost predicate PatternMeans(words: seq<string>, cron: CronPattern) {
    && (|words| == 5 || |words| == 6)
    && var f := FieldTexts(words);
       && FieldMeans(f[0], CRON_SECOND, cron.second) && FieldMeans(f[1], CRON_MINUTE, cron.minute) && FieldMeans(f[2], CRON_HOUR, cron.hour)
       && FieldMeans(f[3], CRON_DOM, cron.dom) && FieldMeans(f[4], CRON_MONTH, cron.month)
       && DowMeans(Split(f[5], ','), cron.dow.values)
       && ModifiersMean(Split(f[3], ','), CRON_DOM, DayModifiers(cron.domLast, cron.domLastWeekday, cron.domNearestWeekday, {}, []))
       && ModifiersMean(Split(f[5], ','), CRON_DOW, DayModifiers(false, false, [], cron.dowLast, cron.dowNth))
       && cron.hasSeconds == (|words| == 6)
       && cron.wildcardTime == ('*' in f[1] || '*' in f[2])
       && (cron.domUnrestricted <==> forall d :: 1 <= d <= 31 ==> d in cron.dom.values)
       && (cron.dowUnrestricted <==> (forall d :: 0 <= d <= 6 ==> d in cron.dow.values) && ('*' in f[5] || '?' in f[5]))
  }

  /** A field without day modifiers has a value. */
  lemma SomeValue(field: string, spec: FieldSpec, f: CronField)
    requires GoodNames(spec) && spec.min <= spec.max && spec.modifiers.NoModifiers? && Accepted(field, spec)
    requires FieldIn(f, spec.min, spec.max) && FieldMeans(field, spec, f)
    ensures |f.sorted| > 0
  {
    var tokens := Split(field, ',');
    assert tokens[0] in tokens;
    var p :| Spells(tokens[0], spec, p) && InBounds(p, spec);
    assert Says(tokens, spec, p);
    var v := PartHits(p, spec);
    assert Hit(tokens, spec, v);
    hide Hit;
    assert v in f.values;
  }

  lemma PartHits(p: Part, spec: FieldSpec) returns (v: int)
    requires InBounds(p, spec) && spec.min <= spec.max && !(p.LastDay? || p.LastWeekday? || p.NearestTo? || p.LastDow? || p.NthDow?)
    ensures Hits(p, spec, v)
  {
    match p
    case All => v := spec.min;
    case Steps(_) => v := spec.min;
    case Value(x) => v := x;
    case ValueSteps(from, _) => v := from;
    case Range(from, _) => v := from;
    case RangeSteps(from, _, _) => v := from;
    case _ =>
  }

  /** A set of values within bounds is complete exactly if it has that many members. */
  lemma {:induction false} FullRange(values: set<int>, min: int, n: nat)
    requires forall v :: v in values ==> min <= v < min + n
    ensures |values| <= n && (|values| == n <==> forall v :: min <= v < min + n ==> v in values)
    decreases n
  {
    if n == 0 {
      assert forall v :: v !in values;
      assert values == {};
    } else {
      var last := min + n - 1;
      var rest := values - {last};
      FullRange(rest, min, n - 1);
      assert last in values ==> values == rest + {last};
      assert last !in values ==> values == rest;
    }
  }

  /** Folds the second Sunday onto the first. */
  method FoldSunday(tokens: seq<string>, parsed: CronField) returns (dow: CronField)
    requires FieldIn(parsed, 0, 7) && Means(tokens, CRON_DOW, parsed.values)
    ensures FieldIn(dow, 0, 6) && DowMeans(tokens, dow.values)
  {
    hide Hit;
    if 7 in parsed.values {
      var values := parsed.values - {7} + {0};
      var sorted := Sort(values, 0, 6);
      dow := CronField(values, sorted);
    } else {
      dow := parsed;
    }
  }

  /** A day-of-month field spells no day-of-week modifiers, and the other way round. */
  lemma OwnModifiers(tokens: seq<string>, spec: FieldSpec, mods: DayModifiers)
    requires ModifiersMean(tokens, spec, mods)
    ensures !spec.modifiers.DowModifiers? ==> mods == DayModifiers(mods.domLast, mods.domLastWeekday, mods.domNearestWeekday, {}, [])
    ensures !spec.modifiers.DomModifiers? ==> mods == DayModifiers(false, false, [], mods.dowLast, mods.dowNth)
  {
    if !spec.modifiers.DowModifiers? {
      forall d ensures d !in mods.dowLast { assert !SaysLastDow(tokens, spec, d); }
      forall e ensures e !in mods.dowNth { assert !SaysNthDow(tokens, spec, e); }
      SomeElement(mods.dowNth);
    }
    if !spec.modifiers.DomModifiers? {
      forall n ensures n !in mods.domNearestWeekday { assert !SaysNearest(tokens, spec, n); }
      SomeElement(mods.domNearestWeekday);
    }
  }

  /** The fields and flags as the parser puts them together. */
  ghost predicate Assembled(words: seq<string>, cron: CronPattern) {
    && (|words| == 5 || |words| == 6)
    && var f := FieldTexts(words);
       && FieldIn(cron.second, 0, 59) && FieldMeans(f[0], CRON_SECOND, cron.second)
       && FieldIn(cron.minute, 0, 59) && FieldMeans(f[1], CRON_MINUTE, cron.minute)
       && FieldIn(cron.hour, 0, 23) && FieldMeans(f[2], CRON_HOUR, cron.hour)
       && FieldIn(cron.dom, 1, 31) && FieldMeans(f[3], CRON_DOM, cron.dom)
       && FieldIn(cron.month, 1, 12) && FieldMeans(f[4], CRON_MONTH, cron.month)
       && FieldIn(cron.dow, 0, 6) && DowMeans(Split(f[5], ','), cron.dow.values)
       && ModifiersMean(Split(f[3], ','), CRON_DOM, DayModifiers(cron.domLast, cron.domLastWeekday, cron.domNearestWeekday, {}, []))
       && ModifiersMean(Split(f[5], ','), CRON_DOW, DayModifiers(false, false, [], cron.dowLast, cron.dowNth))
       && cron.hasSeconds == (|words| == 6)
       && cron.wildcardTime == ('*' in f[1] || '*' in f[2])
       && cron.domUnrestricted == (|cron.dom.values| == 31)
       && cron.dowUnrestricted == (|cron.dow.values| == 7 && ('*' in f[5] || '?' in f[5]))
  }

  lemma InRange(f: CronField, min: int, max: int)
    requires FieldIn(f, min, max)
    ensures forall v :: v in f.values ==> min <= v <= max
  {}

  lemma FullFields(words: seq<string>, cron: CronPattern)
    requires Assembled(words, cron)
    ensures cron.domUnrestricted <==> forall d :: 1 <= d <= 31 ==> d in cron.dom.values
    ensures cron.dowUnrestricted <==> (forall d :: 0 <= d <= 6 ==> d in cron.dow.values) && ('*' in FieldTexts(words)[5] || '?' in FieldTexts(words)[5])
  {
    hide FieldIn, Means, DowMeans, ModifiersMean;
    InRange(cron.dom, 1, 31);
    InRange(cron.dow, 0, 6);
    FullRange(cron.dom.values, 1, 31);
    FullRange(cron.dow.values, 0, 7);
    assert (forall d :: 1 <= d <= 31 ==> d in cron.dom.values) <==> forall d :: 1 <= d < 1 + 31 ==> d in cron.dom.values;
    assert (forall d :: 0 <= d <= 6 ==> d in cron.dow.values) <==> forall d :: 0 <= d < 0 + 7 ==> d in cron.dow.values;
  }

  lemma AssembledMeans(words: seq<string>, cron: CronPattern)
    requires Assembled(words, cron)
    ensures PatternMeans(words, cron)
  {
    FullFields(words, cron);
    hide FieldIn, Means, DowMeans, ModifiersMean;
  }

  /** Five fields leave the seconds at zero. */
  lemma ZeroSeconds(f: CronField)
    requires FieldMeans("0", CRON_SECOND, f)
    ensures f.values == {0}
  {
    assert Render(Value(0)) == "0";
    OnePart(Value(0), CRON_SECOND);
    hide Hit;
    forall v ensures v in f.values <==> v == 0 { assert v in f.values <==> Hit(Split("0", ','), CRON_SECOND, v); }
  }

  lemma ModifierBounds(words: seq<string>, cron: CronPattern)
    requires Assembled(words, cron)
    ensures forall n :: n in cron.domNearestWeekday ==> 1 <= n <= 31
    ensures forall d :: d in cron.dowLast ==> 0 <= d <= 6
    ensures forall p :: p in cron.dowNth ==> 0 <= p.0 <= 6 && 1 <= p.1 <= 5
  {
    hide FieldIn, Means, DowMeans, Says;
    forall p | p in cron.dowNth ensures 0 <= p.0 <= 6 && 1 <= p.1 <= 5 {
      assert SaysNthDow(Split(FieldTexts(words)[5], ','), CRON_DOW, p);
    }
    forall d | d in cron.dowLast ensures 0 <= d <= 6 {
      assert SaysLastDow(Split(FieldTexts(words)[5], ','), CRON_DOW, d);
    }
  }

  lemma AssembledIsWellFormed(words: seq<string>, cron: CronPattern)
    requires Assembled(words, cron) && AcceptedPattern(words)
    ensures WellFormed(cron)
  {
    var f := FieldTexts(words);
    hide FieldIn, Means, DowMeans, ModifiersMean, Accepted;
    MonthNamesAreGood();
    FullFields(words, cron);
    ModifierBounds(words, cron);
    SomeValue(f[0], CRON_SECOND, cron.second);
    SomeValue(f[1], CRON_MINUTE, cron.minute);
    SomeValue(f[2], CRON_HOUR, cron.hour);
    SomeValue(f[4], CRON_MONTH, cron.month);
    if |words| == 5 { ZeroSeconds(cron.second); }
  }

  lemma FieldParsed(text: string, spec: FieldSpec, f: CronField, mods: DayModifiers)
    requires ParsedSoFar(Split(text, ','), spec, f.values, mods)
    ensures FieldMeans(text, spec, f) && ModifiersMean(Split(text, ','), spec, mods)
  {}

  /** Parses a pattern of five or six fields: accepted exactly if every token of every field spells something in bounds,
      and then the result is what the text says, in the form the search relies on.
  */
  method ParseCronPattern(pattern: string) returns (r: Result<CronPattern, string>)
    ensures r.Ok? <==> AcceptedPattern(Words(pattern))
    ensures r.Ok? ==> WellFormed(r.value) && PatternMeans(Words(pattern), r.value)
  {
    hide Means, ModifiersMean, Accepted, FieldIn, WellFormed, Hit, DowMeans, ParsedSoFar, GoodNames, FieldMeans, PatternMeans;
    var words := Words(pattern);
    if |words| != 5 && |words| != 6 { return Err("Invalid cron pattern: expected 5 or 6 fields"); }
    var f := FieldTexts(words);
    GoodSpecs();
    var dom := ParseCronField(f[3], CRON_DOM);
    if dom.Err? { return Err(dom.error); }
    var dow := ParseCronField(f[5], CRON_DOW);
    if dow.Err? { return Err(dow.error); }
    var second := ParseCronField(f[0], CRON_SECOND);
    if second.Err? { return Err(second.error); }
    var minute := ParseCronField(f[1], CRON_MINUTE);
    if minute.Err? { return Err(minute.error); }
    var hour := ParseCronField(f[2], CRON_HOUR);
    if hour.Err? { return Err(hour.error); }
    var month := ParseCronField(f[4], CRON_MONTH);
    if month.Err? { return Err(month.error); }
    var cron := Assemble(words, second.value.0, second.value.1, minute.value.0, minute.value.1, hour.value.0, hour.value.1,
                         dom.value.0, dom.value.1, month.value.0, month.value.1, dow.value.0, dow.value.1);
    AssembledMeans(words, cron);
    AssembledIsWellFormed(words, cron);
    r := Ok(cron);
  }

  lemma GoodSpecs()
    ensures GoodNames(CRON_SECOND) && GoodNames(CRON_MINUTE) && GoodNames(CRON_HOUR) && GoodNames(CRON_DOM)
    ensures GoodNames(CRON_MONTH) && GoodNames(CRON_DOW)
  {
    MonthNamesAreGood();
    DayNamesAreGood();
  }

  /** Puts the parsed fields together: Sunday is folded, and the wildcard flags are read off. */
  method Assemble(words: seq<string>, second: CronField, ghost secondMods: DayModifiers, minute: CronField, ghost minuteMods: DayModifiers,
                  hour: CronField, ghost hourMods: DayModifiers, dom: CronField, domMods: DayModifiers,
                  month: CronField, ghost monthMods: DayModifiers, dow: CronField, dowMods: DayModifiers)
    returns (cron: CronPattern)
    requires |words| == 5 || |words| == 6
    requires FieldIn(second, 0, 59) && ParsedSoFar(Split(FieldTexts(words)[0], ','), CRON_SECOND, second.values, secondMods)
    requires FieldIn(minute, 0, 59) && ParsedSoFar(Split(FieldTexts(words)[1], ','), CRON_MINUTE, minute.values, minuteMods)
    requires FieldIn(hour, 0, 23) && ParsedSoFar(Split(FieldTexts(words)[2], ','), CRON_HOUR, hour.values, hourMods)
    requires FieldIn(dom, 1, 31) && ParsedSoFar(Split(FieldTexts(words)[3], ','), CRON_DOM, dom.values, domMods)
    requires FieldIn(month, 1, 12) && ParsedSoFar(Split(FieldTexts(words)[4], ','), CRON_MONTH, month.values, monthMods)
    requires FieldIn(dow, 0, 7) && ParsedSoFar(Split(FieldTexts(words)[5], ','), CRON_DOW, dow.values, dowMods)
    ensures Assembled(words, cron)
  {
    hide Means, ModifiersMean, FieldIn, DowMeans, ParsedSoFar, FieldMeans;
    var f := FieldTexts(words);
    FieldParsed(f[0], CRON_SECOND, second, secondMods);
    FieldParsed(f[1], CRON_MINUTE, minute, minuteMods);
    FieldParsed(f[2], CRON_HOUR, hour, hourMods);
    FieldParsed(f[3], CRON_DOM, dom, domMods);
    FieldParsed(f[4], CRON_MONTH, month, monthMods);
    DowParsed(f[5], dow, dowMods);
    var folded := FoldSunday(Split(f[5], ','), dow);
    OwnModifiers(Split(f[3], ','), CRON_DOM, domMods);
    OwnModifiers(Split(f[5], ','), CRON_DOW, dowMods);
    cron := CronPattern(second, minute, hour, dom, month, folded,
                        domMods.domLast, domMods.domLastWeekday, domMods.domNearestWeekday, dowMods.dowLast, dowMods.dowNth,
                        |words| == 6, '*' in f[1] || '*' in f[2],
                        |dom.values| == 31, |folded.values| == 7 && ('*' in f[5] || '?' in f[5]));
  }

  lemma DowParsed(text: string, f: CronField, mods: DayModifiers)
    requires ParsedSoFar(Split(text, ','), CRON_DOW, f.values, mods)
    ensures Means(Split(text, ','), CRON_DOW, f.values) && ModifiersMean(Split(text, ','), CRON_DOW, mods)
  {}

  // ---- A text has one meaning ----

  lemma SameField(f: CronField, g: CronField, min: int, max: int)
    requires FieldIn(f, min, max) && FieldIn(g, min, max) && f.values == g.values
    ensures f == g
  {
    AscendingUnique(f.sorted, g.sorted);
  }

  lemma SameValues(text: string, spec: FieldSpec, f: CronField, g: CronField)
    requires FieldMeans(text, spec, f) && FieldMeans(text, spec, g)
    ensures f.values == g.values
  {
    hide Hit;
    forall v ensures v in f.values <==> v in g.values { assert v in f.values <==> Hit(Split(text, ','), spec, v); }
  }

  lemma SameDow(tokens: seq<string>, f: CronField, g: CronField)
    requires DowMeans(tokens, f.values) && DowMeans(tokens, g.values)
    ensures f.values == g.values
  {
    hide Hit;
    forall v ensures v in f.values <==> v in g.values {}
  }

  /** The same modifiers, up to the order and number of the repeats. */
  ghost predicate SameModifiers(a: DayModifiers, b: DayModifiers) {
    && a.domLast == b.domLast && a.domLastWeekday == b.domLastWeekday && a.dowLast == b.dowLast
    && (forall n :: n in a.domNearestWeekday <==> n in b.domNearestWeekday) && (forall e :: e in a.dowNth <==> e in b.dowNth)
  }

  lemma ModifiersAreUnique(tokens: seq<string>, spec: FieldSpec, a: DayModifiers, b: DayModifiers)
    requires ModifiersMean(tokens, spec, a) && ModifiersMean(tokens, spec, b)
    ensures SameModifiers(a, b)
  {
    hide Says;
    forall n ensures n in a.domNearestWeekday <==> n in b.domNearestWeekday { assert n in a.domNearestWeekday <==> SaysNearest(tokens, spec, n); }
    forall d ensures d in a.dowLast <==> d in b.dowLast { assert d in a.dowLast <==> SaysLastDow(tokens, spec, d); }
    forall e ensures e in a.dowNth <==> e in b.dowNth { assert e in a.dowNth <==> SaysNthDow(tokens, spec, e); }
  }

  function DomModifiersOf(cron: CronPattern): DayModifiers {
    DayModifiers(cron.domLast, cron.domLastWeekday, cron.domNearestWeekday, {}, [])
  }

  function DowModifiersOf(cron: CronPattern): DayModifiers {
    DayModifiers(false, false, [], cron.dowLast, cron.dowNth)
  }

  /** Well-formed patterns that mean the same words have the same fields, flags and modifiers. */
  lemma MeaningIsUnique(words: seq<string>, a: CronPattern, b: CronPattern)
    requires WellFormed(a) && WellFormed(b) && PatternMeans(words, a) && PatternMeans(words, b)
    ensures a.second == b.second && a.minute == b.minute && a.hour == b.hour && a.dom == b.dom && a.month == b.month && a.dow == b.dow
    ensures a.hasSeconds == b.hasSeconds && a.wildcardTime == b.wildcardTime
    ensures a.domUnrestricted == b.domUnrestricted && a.dowUnrestricted == b.dowUnrestricted
    ensures SameModifiers(DomModifiersOf(a), DomModifiersOf(b)) && SameModifiers(DowModifiersOf(a), DowModifiersOf(b))
  {
    var f := FieldTexts(words);
    hide FieldMeans, DowMeans, ModifiersMean, FieldIn, SameModifiers;
    SameValues(f[0], CRON_SECOND, a.second, b.second);
    SameField(a.second, b.second, 0, 59);
    SameValues(f[1], CRON_MINUTE, a.minute, b.minute);
    SameField(a.minute, b.minute, 0, 59);
    SameValues(f[2], CRON_HOUR, a.hour, b.hour);
    SameField(a.hour, b.hour, 0, 23);
    SameValues(f[3], CRON_DOM, a.dom, b.dom);
    SameField(a.dom, b.dom, 1, 31);
    SameValues(f[4], CRON_MONTH, a.month, b.month);
    SameField(a.month, b.month, 1, 12);
    SameDow(Split(f[5], ','), a.dow, b.dow);
    SameField(a.dow, b.dow, 0, 6);
    ModifiersAreUnique(Split(f[3], ','), CRON_DOM, DomModifiersOf(a), DomModifiersOf(b));
    ModifiersAreUnique(Split(f[5], ','), CRON_DOW, DowModifiersOf(a), DowModifiersOf(b));
  }

  /** ... so they match the same wall times. */
  lemma SameWordsSameMatches(words: seq<string>, a: CronPattern, b: CronPattern, w: Wall)
    requires WellFormed(a) && WellFormed(b) && PatternMeans(words, a) && PatternMeans(words, b)
    ensures Matches(a, w) <==> Matches(b, w)
  {
    MeaningIsUnique(words, a, b);
    hide WellFormed, PatternMeans, NearestWeekday, DowOf, DayOfWeek, DaysInMonth, SameModifiers;
    var dow, length := DayOfWeek(w.year, w.month, w.day), DaysInMonth(w.year, w.month);
    SameDomMatches(a, b, w.day, dow, length);
    SameDomMatches(b, a, w.day, dow, length);
    SameDowMatches(a, b, w.day, dow, length);
    SameDowMatches(b, a, w.day, dow, length);
    hide DomMatches, DowMatches;
  }

  lemma SameDomMatches(a: CronPattern, b: CronPattern, day: int, dayOfWeek: int, monthLength: int)
    requires a.dom == b.dom && SameModifiers(DomModifiersOf(a), DomModifiersOf(b))
    ensures DomMatches(a, day, dayOfWeek, monthLength) ==> DomMatches(b, day, dayOfWeek, monthLength)
  {
    hide NearestWeekday, DowOf;
    forall i | 0 <= i < |a.domNearestWeekday|
      ensures exists j :: 0 <= j < |b.domNearestWeekday| && b.domNearestWeekday[j] == a.domNearestWeekday[i]
    {
      assert a.domNearestWeekday[i] in DomModifiersOf(a).domNearestWeekday;
    }
  }

  lemma SameDowMatches(a: CronPattern, b: CronPattern, day: int, dayOfWeek: int, monthLength: int)
    requires a.dow == b.dow && SameModifiers(DowModifiersOf(a), DowModifiersOf(b))
    ensures DowMatches(a, day, dayOfWeek, monthLength) ==> DowMatches(b, day, dayOfWeek, monthLength)
  {
    if i :| 0 <= i < |a.dowNth| && a.dowNth[i] == (dayOfWeek, (day + 6) / 7) {
      assert a.dowNth[i] in DowModifiersOf(a).dowNth;
      var j :| 0 <= j < |b.dowNth| && b.dowNth[j] == a.dowNth[i];
    }
  }
}
