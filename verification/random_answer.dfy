/** The random-number answer engine (src/engines/answer/random.rs): a trigger
    on the query text that shows an embedded generator, and the generator
    page's handling of its `min` and `max` parameters. */
module RandomAnswer {
  import opened Wrappers
  import opened Engines
  import Text
  import Decimal

  /** The markup of the answer: a heading and an iframe showing the generator page. */
  const AnswerMarkup: string :=
    "<h3>random number generator</h3>\n"
    + "<div id=\"random-container\">\n"
    + "    <style>\n"
    + "        #random-iframe {\n"
    + "            width: calc( 100% - 16px );\n"
    + "            height: calc( 100% - 16px );\n"
    + "            margin: 8px;\n"
    + "            border: none;\n"
    + "            outline: none;\n"
    + "        }\n"
    + "    </style>\n"
    + "    <iframe id=\"random-iframe\" src=\"/rand_noscript\"></iframe>\n"
    + "</div>"

  /** The text shown instead of a number when a bound is out of range. */
  const PremiumPrompt: string :=
    "<span " + "style='font-size:0.25em;line-height:1.5em;display:block;'>"
    + "metasearch premium allows generating random numbers up to 20 digits!</span>"

  const DefaultMin: int := 1
  const DefaultMax: int := 10

  /** The largest magnitude the generator accepts (ten digits). */
  const BoundLimit: int := 9999999999

  /** Which optional groups of `rand(om)?( number( generator)?)?` take part in a match. */
  datatype Suffix = NoSuffix | Number | NumberGenerator
  datatype Tail = Tail(om: bool, suffix: Suffix)

  /** The text the second alternative matches with the given optional groups. */
  function Expansion(t: Tail): string {
    "rand" + (if t.om then "om" else "")
    + (match t.suffix
       case NoSuffix => ""
       case Number => " number"
       case NumberGenerator => " number generator")
  }

  /** The regex `^(rng)|(rand(om)?( number( generator)?)?)` finds a match in
      `s`: its first alternative is anchored at the start, its second is not. */
  ghost predicate MatchesTrigger(s: string) {
    "rng" <= s || exists i, t :: 0 <= i <= |s| && Expansion(t) <= s[i..]
  }

  /** Because every optional group may match empty, the trigger holds exactly
      when the text starts with `rng` or contains `rand` anywhere. */
  lemma TriggerSimplified(s: string)
    ensures MatchesTrigger(s) <==> ("rng" <= s || Text.Contains(s, "rand"))
  {
    if exists i, t :: 0 <= i <= |s| && Expansion(t) <= s[i..] {
      var i, t :| 0 <= i <= |s| && Expansion(t) <= s[i..];
      assert "rand" <= Expansion(t);
      assert s[i..i + 4] == "rand";
      assert Text.OccursAt(s, "rand", i);
    }
    if Text.Contains(s, "rand") {
      var i :| 0 <= i <= |s| - 4 && Text.OccursAt(s, "rand", i);
      assert Expansion(Tail(false, NoSuffix)) == "rand";
      assert Expansion(Tail(false, NoSuffix)) <= s[i..];
    }
  }

  /** The trigger as the handler evaluates it. */
  predicate Triggered(lower: string) {
    "rng" <= lower || Text.Contains(lower, "rand")
  }

  /** `request`: the fixed generator markup when the lower-cased query matches
      the trigger, and no contribution otherwise. */
  function Request(query: SearchQuery): (r: EngineResponse)
    ensures !MatchesTrigger(Text.AsciiLower(query.query)) ==> r == EmptyResponse
    ensures MatchesTrigger(Text.AsciiLower(query.query)) ==> r == AnswerResponse(AnswerMarkup)
  {
    TriggerSimplified(Text.AsciiLower(query.query));
    if !Triggered(Text.AsciiLower(query.query)) then EmptyResponse
    else AnswerResponse(AnswerMarkup)
  }

  /** `params.get(key).map(|v| v.parse::<i64>().ok()).flatten().unwrap_or(default)`. */
  function Bound(params: map<string, string>, key: string, default: int): (r: int)
    requires Decimal.InI64(default)
    ensures Decimal.InI64(r)
    ensures key !in params ==> r == default
    ensures key in params && Decimal.ParseI64(params[key]).None? ==> r == default
    ensures key in params && Decimal.ParseI64(params[key]).Some? ==> r == Decimal.ParseI64(params[key]).value
  {
    if key !in params then default else Decimal.ParseI64(params[key]).GetOr(default)
  }

  /** The one-sided range check: only `min` is checked from below and only
      `max` from above. */
  predicate InBounds(min: int, max: int) {
    min >= -BoundLimit && max <= BoundLimit
  }

  /** What the page shows in its output cell. */
  datatype Output = Value(n: int) | Premium

  /** The generator page: its output and the values its form is filled with. */
  datatype Page = Page(output: Output, minField: string, maxField: string)

  /** The text of the output cell. */
  function OutputText(o: Output): string
    requires o.Value? ==> Decimal.InI64(o.n)
  {
    match o
    case Value(n) => Decimal.FormatI64(n)
    case Premium => PremiumPrompt
  }

  /** The output cell tells a number from the prompt, and one number from another. */
  lemma OutputTextDistinct(a: Output, b: Output)
    requires a.Value? ==> Decimal.InI64(a.n)
    requires b.Value? ==> Decimal.InI64(b.n)
    requires a != b
    ensures OutputText(a) != OutputText(b)
  {
    if a.Value? && b.Value? {
      assert Decimal.ParseI64(OutputText(a)) == Some(a.n);
      assert Decimal.ParseI64(OutputText(b)) == Some(b.n);
    } else if a.Value? {
      assert PremiumPrompt[0] == '<';
      assert OutputText(a)[0] != OutputText(b)[0];
    } else if b.Value? {
      assert PremiumPrompt[0] == '<';
      assert OutputText(b)[0] != OutputText(a)[0];
    }
  }

  /** The draw: in bounds, a number from `min` to the larger of the two bounds
      (so `min > max` collapses to `min`, it does not swap); out of bounds, the
      prompt. The random generator is an arbitrary choice in that range. */
  method Draw(min: int, max: int) returns (o: Output)
    requires Decimal.InI64(min) && Decimal.InI64(max)
    ensures o.Value? <==> InBounds(min, max)
    ensures o.Value? ==> min <= o.n && Decimal.InI64(o.n)
    ensures o.Value? && min <= max ==> o.n <= max
    ensures o.Value? && min > max ==> o.n == min
  {
    if InBounds(min, max) {
      var high := if min > max then min else max;
      var n :| min <= n <= high;
      o := Value(n);
    } else {
      o := Premium;
    }
  }

  /** `route`: read the bounds with their defaults, draw, and echo the bounds
      in the form, so that submitting the form again asks for the same bounds. */
  method Route(params: map<string, string>) returns (page: Page)
    ensures var min := Bound(params, "min", DefaultMin);
            var max := Bound(params, "max", DefaultMax);
            && Decimal.ParseI64(page.minField) == Some(min)
            && Decimal.ParseI64(page.maxField) == Some(max)
            && (page.output.Value? <==> InBounds(min, max))
            && (page.output.Value? ==> min <= page.output.n <= (if min > max then min else max))
    ensures page.output.Value? ==> Decimal.InI64(page.output.n)
  {
    var min := Bound(params, "min", DefaultMin);
    var max := Bound(params, "max", DefaultMax);
    var output := Draw(min, max);
    page := Page(output, Decimal.FormatI64(min), Decimal.FormatI64(max));
  }
}
