/**
 * Reading the user's text as street, house number and city
 * (`get_possible_separations`, `interpretation_dict`). Four anchored patterns
 * are tried in a fixed order; when none applies the text is cut at every word
 * boundary and each cut whose city part resolves to registry cities is kept.
 */
module Segmenter {
  import opened Wrappers
  import opened Seqs
  import opened Text
  import opened Splits
  import opened Patterns
  import opened CityResolver

  /**
   * One reading of the text. `num` and `city` are `None` where an optional
   * pattern group did not take part; `formatFactor` is `None` for readings
   * that do not set one (the table lookup then uses 1).
   */
  datatype Interpretation = Interpretation(
    street: string,
    num: Option<string>,
    city: Option<string>,
    matchingCities: seq<string>,
    formatFactor: Option<real>)

  /** The reading a pattern match gives: its groups and the cities its city group resolves to. */
  function FromGroups(registry: seq<string>, g: Groups): (d: Interpretation)
    ensures d.street == g.street && d.num == g.num && d.city == g.city && d.formatFactor == None
    ensures d.matchingCities == MatchingCities(registry, g.city)
    ensures forall name :: name in d.matchingCities ==> name in registry
  {
    Interpretation(g.street, g.num, g.city, MatchingCities(registry, g.city), None)
  }

  /** `interpretation_dict(street, city, format_factor)`: no number, the city resolved. */
  function InterpretationDict(registry: seq<string>, street: string, city: string, factor: real): (d: Interpretation)
    ensures d.street == street && d.num == Some("") && d.city == Some(city) && d.formatFactor == Some(factor)
    ensures d.matchingCities == MatchingCities(registry, Some(city))
    ensures city == "" ==> d.matchingCities == []
    ensures city != "" && city in registry ==> d.matchingCities == [city]
  {
    Interpretation(street, Some(""), Some(city), MatchingCities(registry, Some(city)), Some(factor))
  }

  /** The reading's city resolved to at least one registry city. */
  predicate HasCities(d: Interpretation) {
    d.matchingCities != []
  }

  /** The readings whose city resolved to at least one registry city. */
  function Resolved(ds: seq<Interpretation>): (r: seq<Interpretation>)
    ensures SubsequenceOf(r, ds)
    ensures forall d :: d in r <==> d in ds && HasCities(d)
  {
    Filter(ds, HasCities)
  }

  /** Resolving readings appended two at a time. */
  lemma ResolvedSnocPair(ds: seq<Interpretation>, d: Interpretation, e: Interpretation)
    ensures Resolved(ds + [d, e])
      == Resolved(ds) + (if HasCities(d) then [d] else []) + (if HasCities(e) then [e] else [])
  {
    assert ds + [d, e] == (ds + [d]) + [e];
    FilterSnoc(ds + [d], e, HasCities);
    FilterSnoc(ds, d, HasCities);
  }
  /**
   * For the street part of a "street number" text: each cut read as
   * "city street", with factor 0.15, one reading per cut in cut order.
   */
  function CityFirstReadings(registry: seq<string>, splits: seq<(string, string)>): (r: seq<Interpretation>)
    ensures |r| == |splits|
    ensures forall i :: 0 <= i < |splits| ==> r[i] == InterpretationDict(registry, splits[i].1, splits[i].0, 0.15)
  {
    if splits == [] then []
    else
      var last := splits[|splits| - 1];
      CityFirstReadings(registry, splits[..|splits| - 1]) + [InterpretationDict(registry, last.1, last.0, 0.15)]
  }

  /** The two readings of one cut of a street-only text: "street city" (0.5), then "city street" (0.2). */
  function BothOrders(registry: seq<string>, cut: (string, string)): seq<Interpretation> {
    [InterpretationDict(registry, cut.0, cut.1, 0.5), InterpretationDict(registry, cut.1, cut.0, 0.2)]
  }

  /** The readings of all cuts of a street-only text, cut by cut. */
  function StreetCityReadings(registry: seq<string>, splits: seq<(string, string)>): seq<Interpretation> {
    if splits == [] then []
    else StreetCityReadings(registry, splits[..|splits| - 1]) + BothOrders(registry, splits[|splits| - 1])
  }

  /**
   * Each cut contributes two readings, at positions 2i and 2i + 1: first with
   * the leading part as street (0.5), then with the leading part as city (0.2).
   */
  lemma {:induction false} StreetCityReadingsAt(registry: seq<string>, splits: seq<(string, string)>)
    ensures |StreetCityReadings(registry, splits)| == 2 * |splits|
    ensures forall i :: 0 <= i < |splits| ==>
      && StreetCityReadings(registry, splits)[2 * i] == InterpretationDict(registry, splits[i].0, splits[i].1, 0.5)
      && StreetCityReadings(registry, splits)[2 * i + 1] == InterpretationDict(registry, splits[i].1, splits[i].0, 0.2)
  {
    if splits != [] {
      var init := splits[..|splits| - 1];
      StreetCityReadingsAt(registry, init);
      PairsSnoc(splits, StreetCityReadings(registry, init),
                (cut: (string, string)) => InterpretationDict(registry, cut.0, cut.1, 0.5),
                (cut: (string, string)) => InterpretationDict(registry, cut.1, cut.0, 0.2));
    }
  }

  /**
   * The readings of `text`, most specific first:
   * - nothing for a blank text; otherwise the stripped text is matched;
   * - "street, city number", only when its city resolves;
   * - "street[ number], [city]", whether or not its city resolves;
   * - "street number city", whether or not its city resolves;
   * - "street number": that reading with an empty city, then each cut of the
   *   street read as "city street" when its city resolves;
   * - otherwise the whole text as a street, then each cut read both ways,
   *   keeping the readings whose city resolves.
   */
  function Separations(registry: seq<string>, text: string): (r: seq<Interpretation>)
    ensures r == [] <==> IsBlank(text)
    ensures |r| > 1 ==> r[0].city == Some("") && r[0].matchingCities == []
    ensures forall k :: 1 <= k < |r| ==> HasCities(r[k])
  {
    if IsBlank(text) then []
    else
      var t := Strip(text);
      Decide(registry, t, MatchNumberAfterAddress(t), MatchFullAddress(t), MatchNoComma(t), MatchStreetWithNum(t))
  }

  /** The decision of `Separations` on the stripped text `t`, given what each pattern matched. */
  function Decide(registry: seq<string>, t: string, numAfter: Option<Groups>, full: Option<Groups>,
                  noComma: Option<Groups>, streetWithNum: Option<Groups>): (r: seq<Interpretation>)
    ensures r != []
    ensures |r| > 1 ==> r[0].city == Some("") && r[0].matchingCities == []
    ensures forall k :: 1 <= k < |r| ==> HasCities(r[k])
  {
    if numAfter.Some? && MatchingCities(registry, numAfter.value.city) != [] then
      [FromGroups(registry, numAfter.value)]
    else if full.Some? then
      [FromGroups(registry, full.value)]
    else if noComma.Some? then
      [FromGroups(registry, noComma.value)]
    else if streetWithNum.Some? then
      var g := streetWithNum.value;
      [Interpretation(g.street, g.num, Some(""), [], None)]
        + Resolved(CityFirstReadings(registry, PossibleSplits(g.street)))
    else
      [Interpretation(t, Some(""), Some(""), [], None)]
        + Resolved(StreetCityReadings(registry, PossibleSplits(t)))
  }

  // ----- Which reading wins -----

  /** `t` has the number-after shape and its city resolves. */
  ghost predicate NumberAfterResolves(registry: seq<string>, t: string) {
    exists a: nat, b: nat, c: nat, d: nat, e: nat ::
      NumberAfterAt(t, a, b, c, d, e) && MatchingCities(registry, Some(t[b..c])) != []
  }

  /** When the number-after pattern is not taken, `Separations` reads the stripped text as `Decide` without it. */
  lemma NumberAfterSkipped(registry: seq<string>, t: string)
    requires !NumberAfterResolves(registry, t)
    ensures var numAfter := MatchNumberAfterAddress(t);
      !(numAfter.Some? && MatchingCities(registry, numAfter.value.city) != [])
  {
    NumberAfterAddressSpec(t);
    if MatchNumberAfterAddress(t).Some? {
      var a: nat, b: nat, c: nat, d: nat, e: nat :| NumberAfterAt(t, a, b, c, d, e);
    }
  }

  /** A text that strips to something non-empty is not blank. */
  lemma NotBlank(text: string)
    requires Strip(text) != []
    ensures !IsBlank(text)
  {
  }

  /**
   * "street, city number" whose city resolves is the only reading, with the
   * digits as number; it wins over every other pattern.
   */
  lemma NumberAfterAddressReading(registry: seq<string>, text: string, a: nat, b: nat, c: nat, d: nat, e: nat)
    requires NumberAfterAt(Strip(text), a, b, c, d, e)
    requires MatchingCities(registry, Some(Strip(text)[b..c])) != []
    ensures var t := Strip(text);
      Separations(registry, text)
        == [Interpretation(t[..a], Some(t[d..e]), Some(t[b..c]), MatchingCities(registry, Some(t[b..c])), None)]
  {
    NotBlank(text);
    NumberAfterAddressSpec(Strip(text));
  }

  /**
   * Unless a resolving number-after reading exists, "street[ number],[ city]"
   * is the only reading, whether or not its city resolves.
   */
  lemma FullAddressReading(registry: seq<string>, text: string, a: nat, b: nat, n: nat, f: nat, g: nat)
    requires !NumberAfterResolves(registry, Strip(text))
    requires FullAddressAt(Strip(text), a, b, n, f, g)
    ensures Separations(registry, text) == [FromGroups(registry, FullAddressGroups(Strip(text), a, n, f, g))]
  {
    NotBlank(text);
    NumberAfterSkipped(registry, Strip(text));
    FullAddressSpec(Strip(text));
  }

  /** With no comma reading, "street number city" is the only reading, whether or not its city resolves. */
  lemma NoCommaReading(registry: seq<string>, text: string, a: nat, b: nat, e: nat, f: nat, g: nat)
    requires !NumberAfterResolves(registry, Strip(text))
    requires forall a: nat, b: nat, n: nat, f: nat, g: nat :: !FullAddressAt(Strip(text), a, b, n, f, g)
    requires NoCommaAt(Strip(text), a, b, e, f, g)
    ensures var t := Strip(text);
      Separations(registry, text)
        == [Interpretation(t[..a], Some(t[b..e]), Some(t[f..g]), MatchingCities(registry, Some(t[f..g])), None)]
  {
    NotBlank(text);
    NumberAfterSkipped(registry, Strip(text));
    FullAddressSpec(Strip(text));
    NoCommaSpec(Strip(text));
  }

  /**
   * "street number" with nothing more specific: first that reading with an
   * empty city and no cities, then the cuts of the street read as
   * "city street" (factor 0.15), in cut order, exactly those whose city resolves.
   */
  lemma StreetWithNumReading(registry: seq<string>, text: string, a: nat, b: nat, e: nat)
    requires !NumberAfterResolves(registry, Strip(text))
    requires forall a: nat, b: nat, n: nat, f: nat, g: nat :: !FullAddressAt(Strip(text), a, b, n, f, g)
    requires forall a: nat, b: nat, e: nat, f: nat, g: nat :: !NoCommaAt(Strip(text), a, b, e, f, g)
    requires StreetWithNumAt(Strip(text), a, b, e)
    ensures var t, r := Strip(text), Separations(registry, text);
      && r != [] && r[0] == Interpretation(t[..a], Some(t[b..e]), Some(""), [], None)
      && SubsequenceOf(r[1..], CityFirstReadings(registry, PossibleSplits(t[..a])))
      && forall cut :: cut in PossibleSplits(t[..a]) ==>
           var d := InterpretationDict(registry, cut.1, cut.0, 0.15);
           d in r[1..] <==> HasCities(d)
  {
    var t := Strip(text);
    NotBlank(text);
    NumberAfterSkipped(registry, t);
    FullAddressSpec(t);
    NoCommaSpec(t);
    StreetWithNumSpec(t);
    CityFirstMembers(registry, PossibleSplits(t[..a]));
  }

  /** Every cut's "city street" reading is among the city-first readings. */
  lemma CityFirstMembers(registry: seq<string>, splits: seq<(string, string)>)
    ensures forall cut :: cut in splits ==> InterpretationDict(registry, cut.1, cut.0, 0.15) in CityFirstReadings(registry, splits)
  {
    forall cut | cut in splits
      ensures InterpretationDict(registry, cut.1, cut.0, 0.15) in CityFirstReadings(registry, splits)
    {
      var i :| 0 <= i < |splits| && splits[i] == cut;
      assert CityFirstReadings(registry, splits)[i] == InterpretationDict(registry, cut.1, cut.0, 0.15);
    }
  }

  /**
   * No pattern applies: first the whole stripped text as a street with empty
   * number and city, then the two readings of every cut in cut order, the
   * "street city" one (0.5) before the "city street" one (0.2), exactly those
   * whose city resolves.
   */
  lemma StreetOnlyReading(registry: seq<string>, text: string)
    requires !IsBlank(text)
    requires !NumberAfterResolves(registry, Strip(text))
    requires forall a: nat, b: nat, n: nat, f: nat, g: nat :: !FullAddressAt(Strip(text), a, b, n, f, g)
    requires forall a: nat, b: nat, e: nat, f: nat, g: nat :: !NoCommaAt(Strip(text), a, b, e, f, g)
    requires forall a: nat, b: nat, e: nat :: !StreetWithNumAt(Strip(text), a, b, e)
    ensures var t, r := Strip(text), Separations(registry, text);
      && r != [] && r[0] == Interpretation(t, Some(""), Some(""), [], None)
      && SubsequenceOf(r[1..], StreetCityReadings(registry, PossibleSplits(t)))
      && forall d :: d in StreetCityReadings(registry, PossibleSplits(t)) ==> (d in r[1..] <==> HasCities(d))
  {
    var t := Strip(text);
    NumberAfterSkipped(registry, t);
    FullAddressSpec(t);
    NoCommaSpec(t);
    StreetWithNumSpec(t);
  }

  // ----- Reading a suggestion back -----

  /** A formatted address is its own stripped form. */
  lemma FormattedAddressStripped(street: string, num: string, city: string)
    requires IsPhrase(street) && IsPhrase(city)
    ensures Strip(FormatAddress(street, num, city)) == FormatAddress(street, num, city)
  {
    var t := FormatAddress(street, num, city);
    FormatAddressLayout(street, num, city);
    assert t[0] == street[0];
    assert t[|t| - 1] == city[|city| - 1] by {
      var n := |t| - 2 - |city|;
      assert t[n + 2..][|city| - 1] == t[|t| - 1];
    }
    StripUnchanged(t);
  }

  /**
   * Choosing a suggestion and sending its text back yields exactly one
   * reading: its own street, number (with the space before it) and city.
   */
  lemma SuggestionReadBack(registry: seq<string>, street: string, num: string, city: string)
    requires IsPhrase(street) && IsPhrase(city) && (num == "" || IsNumber(num))
    ensures Separations(registry, FormatAddress(street, num, city))
      == [Interpretation(street, if num == "" then None else Some(" " + num), Some(city),
                         MatchingCities(registry, Some(city)), None)]
  {
    FormattedAddressStripped(street, num, city);
    FormattedAddressReadBack(street, num, city);
    NotBlank(FormatAddress(street, num, city));
  }

  /**
   * Typing a house number after a suggestion without one yields exactly one
   * reading, the suggestion's street and city with that number, provided the
   * city resolves.
   */
  lemma NumberAfterSuggestionReading(registry: seq<string>, street: string, city: string, digits: string)
    requires IsPhrase(street) && IsPhrase(city) && IsNumber(digits)
    requires MatchingCities(registry, Some(city)) != []
    ensures Separations(registry, FormatAddress(street, "", city) + " " + digits)
      == [Interpretation(street, Some(digits), Some(city), MatchingCities(registry, Some(city)), None)]
  {
    var t := FormatAddress(street, "", city) + " " + digits;
    assert t[0] == street[0];
    assert t[|t| - 1] == digits[|digits| - 1];
    StripUnchanged(t);
    NotBlank(t);
    NumberTypedAfterSuggestion(street, city, digits);
  }

  /** `get_possible_separations`, building the list of readings as the source does. */
  method GetPossibleSeparations(registry: seq<string>, text: string) returns (results: seq<Interpretation>)
    ensures results == Separations(registry, text)
  {
    if IsBlank(text) {
      return [];
    }
    var t := Strip(text);

    var numAfter := MatchNumberAfterAddress(t);
    if numAfter.Some? {
      var d := FromGroups(registry, numAfter.value);
      if d.matchingCities != [] {
        return [d];
      }
    }

    var full := MatchFullAddress(t);
    if full.Some? {
      return [FromGroups(registry, full.value)];
    }

    var noComma := MatchNoComma(t);
    if noComma.Some? {
      return [FromGroups(registry, noComma.value)];
    }

    var streetWithNum := MatchStreetWithNum(t);
    if streetWithNum.Some? {
      var g := streetWithNum.value;
      results := [Interpretation(g.street, g.num, Some(""), [], None)];
      results := AppendCityFirstReadings(registry, results, PossibleSplits(g.street));
      return;
    }

    results := [Interpretation(t, Some(""), Some(""), [], None)];
    results := AppendStreetCityReadings(registry, results, PossibleSplits(t));
  }

  /** The loop over the cuts of a "street number" text's street: keep each "city street" reading that resolves. */
  method AppendCityFirstReadings(registry: seq<string>, start: seq<Interpretation>, splits: seq<(string, string)>)
    returns (results: seq<Interpretation>)
    ensures results == start + Resolved(CityFirstReadings(registry, splits))
  {
    results := start;
    for i := 0 to |splits|
      invariant results == start + Resolved(CityFirstReadings(registry, splits[..i]))
    {
      var cut := splits[i];
      var d := InterpretationDict(registry, cut.1, cut.0, 0.15);
      ghost var before := results;
      if d.matchingCities != [] {
        results := results + [d];
      }
      CityFirstReadingsStep(registry, splits, i, start, before, results);
    }
    assert splits[..|splits|] == splits;
  }

  /** One more cut adds its "city street" reading when that resolves. */
  lemma CityFirstReadingsStep(registry: seq<string>, splits: seq<(string, string)>, i: nat,
                              start: seq<Interpretation>, before: seq<Interpretation>, after: seq<Interpretation>)
    requires i < |splits| && before == start + Resolved(CityFirstReadings(registry, splits[..i]))
    requires var d := InterpretationDict(registry, splits[i].1, splits[i].0, 0.15);
      after == before + (if HasCities(d) then [d] else [])
    ensures after == start + Resolved(CityFirstReadings(registry, splits[..i + 1]))
  {
    assert splits[..i + 1][..i] == splits[..i];
    var d := InterpretationDict(registry, splits[i].1, splits[i].0, 0.15);
    FilterSnoc(CityFirstReadings(registry, splits[..i]), d, HasCities);
  }

  /** The loop over the cuts of a street-only text: keep each of its two readings that resolves. */
  method AppendStreetCityReadings(registry: seq<string>, start: seq<Interpretation>, splits: seq<(string, string)>)
    returns (results: seq<Interpretation>)
    ensures results == start + Resolved(StreetCityReadings(registry, splits))
  {
    results := start;
    for i := 0 to |splits|
      invariant results == start + Resolved(StreetCityReadings(registry, splits[..i]))
    {
      var cut := splits[i];
      var d := InterpretationDict(registry, cut.0, cut.1, 0.5);
      var e := InterpretationDict(registry, cut.1, cut.0, 0.2);
      ghost var before := results;
      if d.matchingCities != [] {
        results := results + [d];
      }
      if e.matchingCities != [] {
        results := results + [e];
      }
      StreetCityReadingsStep(registry, splits, i, start, before, results);
    }
    assert splits[..|splits|] == splits;
  }

  /** One more cut adds its "street city" reading and then its "city street" reading, each when it resolves. */
  lemma StreetCityReadingsStep(registry: seq<string>, splits: seq<(string, string)>, i: nat,
                               start: seq<Interpretation>, before: seq<Interpretation>, after: seq<Interpretation>)
    requires i < |splits| && before == start + Resolved(StreetCityReadings(registry, splits[..i]))
    requires var d := InterpretationDict(registry, splits[i].0, splits[i].1, 0.5);
      var e := InterpretationDict(registry, splits[i].1, splits[i].0, 0.2);
      after == before + (if HasCities(d) then [d] else []) + (if HasCities(e) then [e] else [])
    ensures after == start + Resolved(StreetCityReadings(registry, splits[..i + 1]))
  {
    assert splits[..i + 1][..i] == splits[..i];
    var both := BothOrders(registry, splits[i]);
    var prev := Resolved(StreetCityReadings(registry, splits[..i]));
    ResolvedSnocPair(StreetCityReadings(registry, splits[..i]), both[0], both[1]);
    var d, e := if HasCities(both[0]) then [both[0]] else [], if HasCities(both[1]) then [both[1]] else [];
    AppendAssoc(start, prev + d, e);
    AppendAssoc(start, prev, d);
  }
}
