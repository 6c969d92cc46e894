/**
 * The suggestion pipeline end to end: the typed text is split into
 * readings, each reading is looked up in the street table, and the rows
 * found are ranked into suggestions.
 */
module Suggestions {
  import opened Wrappers
  import opened Seqs
  import opened Text
  import opened Tables
  import opened Patterns
  import opened CityResolver
  import opened Segmenter
  import opened Collector
  import opened Ranking

  /** `build_suggestions`: looks the readings up, then ranks what was found. */
  method BuildSuggestions(streets: seq<StreetRow>, dicts: seq<Interpretation>, maxNum: int := 15)
    returns (r: seq<Suggestion>)
    ensures r == PrepareResults(Collected(streets, dicts, maxNum), maxNum)
  {
    var dfs := CollectFrames(streets, dicts, maxNum);
    r := PrepareResults(dfs, maxNum);
  }

  /** The suggestions for `text`, with `registry` the known city names. */
  function Suggest(streets: seq<StreetRow>, registry: seq<string>, text: string, maxNum: int): seq<Suggestion> {
    PrepareResults(Collected(streets, Separations(registry, text), maxNum), maxNum)
  }

  /** `get_suggestions`: the readings of the text, looked up and ranked. */
  method GetSuggestions(streets: seq<StreetRow>, registry: seq<string>, text: string, maxNum: int := 20)
    returns (r: seq<Suggestion>)
    ensures r == Suggest(streets, registry, text, maxNum)
  {
    var dicts := GetPossibleSeparations(registry, text);
    r := BuildSuggestions(streets, dicts, maxNum);
  }

  /**
   * At most `maxNum` suggestions, from the highest score down, no street of a
   * city twice, each made from a table row that one of the readings `dicts`
   * with a street asks for.
   */
  ghost predicate WellRanked(r: seq<Suggestion>, streets: seq<StreetRow>, dicts: seq<Interpretation>, maxNum: int) {
    && (maxNum >= 0 ==> |r| <= maxNum)
    && (forall i, j :: 0 <= i < j < |r| ==> r[i].score >= r[j].score)
    && (forall i, j :: 0 <= i < j < |r| ==> SuggestionKey(r[i]) != SuggestionKey(r[j]))
    && (forall i :: 0 <= i < |r| ==> exists c: Candidate ::
          && r[i] == ToSuggestion(Scored(c))
          && c.row in streets
          && exists d :: d in dicts && HasStreet(d) && Wanted(d, c.row))
  }

  /** The suggestions built from any readings are well ranked. */
  lemma BuildSpec(streets: seq<StreetRow>, dicts: seq<Interpretation>, maxNum: int)
    ensures WellRanked(PrepareResults(Collected(streets, dicts, maxNum), maxNum), streets, dicts, maxNum)
  {
    var dfs := Collected(streets, dicts, maxNum);
    var r := PrepareResults(dfs, maxNum);
    PrepareResultsSpec(dfs, maxNum);
    CollectedRowsWanted(streets, dicts, maxNum);
    forall i | 0 <= i < |r| ensures exists c: Candidate ::
      && r[i] == ToSuggestion(Scored(c))
      && c.row in streets
      && exists d :: d in dicts && HasStreet(d) && Wanted(d, c.row)
    {
      var c: Candidate :| c in Concat(dfs) && r[i] == ToSuggestion(Scored(c));
    }
  }

  /**
   * Blank text gives no suggestions; any text gives suggestions well ranked
   * for its readings.
   */
  lemma SuggestSpec(streets: seq<StreetRow>, registry: seq<string>, text: string, maxNum: int)
    ensures var r := Suggest(streets, registry, text, maxNum);
      && (IsBlank(text) ==> r == [])
      && WellRanked(r, streets, Separations(registry, text), maxNum)
  {
    var dicts := Separations(registry, text);
    BuildSpec(streets, dicts, maxNum);
    if IsBlank(text) {
      assert dicts == [];
      assert Collected(streets, dicts, maxNum) == [];
    }
  }

  /**
   * Choosing a suggestion puts its formatted address in the box; when its
   * street and city are plain names and its number is digits or empty, that
   * text has exactly one reading, the suggestion's street, number and city.
   */
  lemma ChosenSuggestionReadBack(registry: seq<string>, s: Suggestion)
    requires s.formattedAddress == FormatAddress(s.streetName, s.num, s.cityName)
    requires IsPhrase(s.streetName) && IsPhrase(s.cityName) && (s.num == "" || IsNumber(s.num))
    ensures Separations(registry, s.formattedAddress)
      == [Interpretation(s.streetName, if s.num == "" then None else Some(" " + s.num), Some(s.cityName),
                         MatchingCities(registry, Some(s.cityName)), None)]
  {
    SuggestionReadBack(registry, s.streetName, s.num, s.cityName);
  }
}
