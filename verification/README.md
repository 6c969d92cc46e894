# Address autocomplete: a Dafny model

This project models the core of an Israeli street-address autocomplete
service (`streets_utils.py`). The user types free text such as
"שפינוזה 5, תל אביב" and gets back a ranked list of suggested addresses.
The service proceeds in three stages:

1. **Segmentation** (`get_possible_separations`). Four anchored regular
   expressions are tried in a fixed order:
   - "street, city number";
   - "street[ number],[ city]";
   - "street number city";
   - "street number".

   When none applies, the text is cut at every word boundary and each cut is
   read both as "street city" and as "city street". City fragments are
   resolved against the city registry (`get_matching_cities`), and readings
   whose city does not resolve are dropped.
2. **Lookup** (`collect_dfs`). Each reading that has a street selects rows
   of the street table:
   - a one-character street gives the first five official names that start
     with it;
   - a longer street gives every name that contains it;
   - in both cases the rows are restricted to the reading's cities, if it
     has any.

   The loop stops early once the last reading alone found `max_num` rows, or
   the running total exceeds twice `max_num`.
3. **Ranking** (`prepare_results`). Every row found is scored: the street
   and city similarities plus the city's population score, times the
   reading's format factor and the official-name bonus. The rows are then
   sorted by score, only the best row of each street of each city (city code
   and official street code) is kept, the first `max_num` are returned, and
   each gets its formatted address.

Modules, one per concern, in dependency order:

| file | module | what it holds |
|---|---|---|
| `wrappers.dfy` | `Wrappers` | `Option` |
| `seqs.dfy` | `Seqs` | filters, subsequences, `Head` with pandas' `head` semantics, concatenation, order-keeping `Distinct` |
| `text.dfy` | `Text` | character classes, `str.strip`, `str.split`, `' '.join`, `startswith` / substring |
| `splits.dfy` | `Splits` | `possible_splits` |
| `tables.dfy` | `Tables` | the street row, `official_factor`, the population score |
| `city_resolver.dfy` | `CityResolver` | `get_matching_cities` |
| `patterns.dfy` | `Patterns` | the four regular expressions as greedy scanners, each with a shape predicate and a lemma that the two agree; the formatted address |
| `segmenter.dfy` | `Segmenter` | `interpretation_dict`, `get_possible_separations` as a function and as the source's loop |
| `collect.dfy` | `Collector` | the table lookup of one reading, `collect_dfs` as a function and as a loop |
| `ranking.dfy` | `Ranking` | `similar`, the score, sorting, deduplication, `prepare_results` |
| `suggestions.dfy` | `Suggestions` | `build_suggestions`, `get_suggestions` and their end-to-end properties |

Modelling choices:

- **External data as parameters.** The street table and the city registry
  are module-level data frames in the source; here they are parameters
  (`streets`, `registry`).
- **Reals for floats.** Scores are `real`.
- **`similar`** is `SequenceMatcher.real_quick_ratio`: 2·min(|a|,|b|) / (|a|+|b|), and 1 for two empty strings.
- **Regular expressions** are deterministic greedy scanners. In these four
  patterns every run is followed by a character its own class excludes, so
  a backtracking engine finds the same match.
- **Character classes.**
  - A word character is an ASCII letter, a Hebrew letter (U+05D0–U+05EA),
    `-`, `'` or `"`.
  - Whitespace is Python's `str.isspace` set.
  - Digits are ASCII.
- **Group values.** An optional regex group that did not take part is
  `None`; otherwise it keeps the text it matched, leading whitespace
  included, as Python does.
- **`max_num`** is an `int` with pandas' `head` semantics: a negative `n`
  drops the last `-n` rows. A `max_num` that leaves no row is listed under
  "Left out".

## Model

| member | source | states |
|---|---|---|
| Text.Strip | streets_utils.py:121-123 | the stripped text is empty exactly when the text is blank, neither starts nor ends with whitespace, and is a slice of the text with only whitespace cut on both sides |
| Text.WordsOfJoin | streets_utils.py:110-112 | splitting a space-joined list of whitespace-free words gives the words back |
| Splits.PossibleSplitsSpec | streets_utils.py:107-112 | a text of n words has n-1 splits (none when empty); the i-th is the cut after i+1 words, both parts unpadded, each part splitting back into its words, and the two joined by one space give the normalised text |
| CityResolver.MatchingCities | streets_utils.py:191-203 | no cities for a missing or empty fragment; the fragment itself when it is a registry name; otherwise, in registry order, exactly the names that start with it (one character) or contain it (longer) |
| Tables.OfficialFactor | streets_utils.py:52 | 1.01 for an official name, 1 for a synonym |
| Tables.TotalWorkingAge | streets_utils.py:58-59 | the working-age total bounds every city's working-age population |
| Tables.PopScores | streets_utils.py:58-59 | there are population scores exactly when the working-age total is positive; then there is one per city, equal to its working-age population divided by the total, and each lies in [0, 1] |
| Tables.PopScoresSumToOne | streets_utils.py:59 | the population scores of all cities add up to one |
| Patterns.PhraseEnd | streets_utils.py:67-73 | the greedy `word(?:\sword)*` run from a word character ends after the start and cannot be extended by a word character or by a whitespace-and-word |
| Patterns.PhraseEndIsPhrase | streets_utils.py:67-73 | what that greedy run covers is a phrase: words separated by single whitespace characters |
| Patterns.NumberAfterAddressSpec | streets_utils.py:79-80 | the "street, city number" matcher succeeds only on texts of that shape, and on every such text it returns the street, the longest digit run and the city at their positions |
| Patterns.FullAddressSpec | streets_utils.py:73 | the "street[ number],[ city]" matcher succeeds only on texts of that shape, and on every such text it returns the street, the optional number with its whitespace and the optional city |
| Patterns.NoCommaSpec | streets_utils.py:85 | the "street number city" matcher succeeds only on texts of that shape, and on every such text it returns the three groups at their positions |
| Patterns.StreetWithNumSpec | streets_utils.py:89 | the "street number" matcher succeeds only on texts of that shape, and on every such text it returns the street and the longest digit run, with no city |
| Patterns.FormattedAddressReadBack | streets_utils.py:266 | an address formatted from phrase street and city and a digits-or-empty number is not read as "street, city number", and the comma pattern reads back exactly that street, number (after its space) and city |
| Patterns.NumberTypedAfterSuggestion | streets_utils.py:76-80 | a number typed after a formatted address without a number is read by the number-after pattern as that street, city and number |
| Segmenter.FromGroups | streets_utils.py:128-129 | a pattern's reading keeps its groups, sets no format factor, and its cities are exactly what the resolver gives for its city group, all of them registry names |
| Segmenter.InterpretationDict | streets_utils.py:115-116 | a reading with empty number, the given street, city and factor, and as cities exactly what the resolver gives for the city: none for an empty city, only the city itself when it is a registry name |
| Segmenter.Resolved | streets_utils.py:162-164 | the kept readings are those, in order, whose city resolved |
| Segmenter.CityFirstReadings | streets_utils.py:159-161 | one "city street" reading per cut of the street, with factor 0.15, in cut order |
| Segmenter.StreetCityReadingsAt | streets_utils.py:171-182 | each cut gives two readings at 2i and 2i+1: "street city" (0.5) then "city street" (0.2) |
| Segmenter.Separations | streets_utils.py:120-183 | no readings exactly for blank text; when there are several, the first has an empty city and no cities and every later one has resolved cities |
| Segmenter.Decide | streets_utils.py:125-183 | the decision after stripping always yields a reading, with the same shape as `Separations` |
| Segmenter.NumberAfterAddressReading | streets_utils.py:125-131 | "street, city number" with a resolving city is the only reading, with the digit run as number |
| Segmenter.FullAddressReading | streets_utils.py:133-140 | otherwise "street[ number],[ city]" is the only reading, whether or not its city resolves |
| Segmenter.NoCommaReading | streets_utils.py:142-147 | otherwise "street number city" is the only reading, whether or not its city resolves |
| Segmenter.StreetWithNumReading | streets_utils.py:149-165 | otherwise "street number" comes first with no city; it is followed, in cut order, by exactly the resolving "city street" readings of its street's cuts |
| Segmenter.StreetOnlyReading | streets_utils.py:167-183 | otherwise the whole text is the first reading; it is followed, cut by cut, by exactly the resolving readings among "street city" and "city street" |
| Segmenter.FormattedAddressStripped | streets_utils.py:123 | a formatted address is unchanged by stripping |
| Segmenter.SuggestionReadBack | streets_utils.py:133-140 | sending a formatted suggestion back as text gives exactly one reading: its street, number and city |
| Segmenter.NumberAfterSuggestionReading | streets_utils.py:125-131 | a number typed after a formatted suggestion whose city resolves gives exactly one reading, with that number |
| Segmenter.GetPossibleSeparations | streets_utils.py:120-183 | the source's early returns and appends compute exactly `Separations` |
| Segmenter.AppendCityFirstReadings | streets_utils.py:158-165 | the loop appends exactly the resolving "city street" readings of the cuts, in order |
| Segmenter.AppendStreetCityReadings | streets_utils.py:171-183 | the loop appends exactly the resolving readings of both orders of every cut, in order |
| Collector.StreetMatchesSpec | streets_utils.py:223-237 | the lookup is a subsequence of the table made of wanted rows; a one-character street gives exactly the first min(5, n) of the n wanted rows; a longer street gives every wanted row in table order |
| Collector.Frame | streets_utils.py:239-243 | one candidate per matched row, in order, each carrying the stripped number, the stripped street, the city (empty when none) and the format factor (1 when none) |
| Collector.CollectedSpec | streets_utils.py:217-248 | the frames are those of the readings with a street, in order; the lookup has not stopped before the last frame; it ends before the readings run out only when the last frame had `max_num` rows or the total exceeded twice `max_num` |
| Collector.CollectWith | streets_utils.py:217-248 | the loop over readings, with its early break, computes the frames of `Collected` |
| Collector.CollectFrames | streets_utils.py:217-248 | `collect_dfs` over the street table computes `Collected` |
| Collector.CollectedRowsWanted | streets_utils.py:220-237 | every collected row is a table row wanted by some reading that has a street |
| Ranking.Similar | streets_utils.py:9-10 | the similarity lies in [0, 1] and is 1 exactly when the strings have the same length |
| Ranking.SimilarSymmetric | streets_utils.py:9-10 | the similarity does not depend on argument order |
| Ranking.ScoreBounds | streets_utils.py:261 | with a population score in [0, 1] and a non-negative format factor, a score lies between 0 and 3.03 times the format factor |
| Ranking.OfficialOutranksSynonym | streets_utils.py:261 | with a positive format factor and a positive sum of similarities and population score, the official name of a row scores strictly more than the same row as a synonym |
| Ranking.Insert | streets_utils.py:264 | inserting into a score-sorted list keeps it sorted and adds exactly that row |
| Ranking.SortByScore | streets_utils.py:264 | the result is sorted by decreasing score and is a permutation of the input |
| Ranking.DedupFrom | streets_utils.py:264 | a subsequence with no (city, official street) key twice, covering exactly the keys not seen before |
| Ranking.DedupKeepsFirst | streets_utils.py:264 | every kept row is the first row of its key in the input, the row `drop_duplicates` keeps |
| Ranking.DedupSorted | streets_utils.py:264 | deduplicating sorted rows keeps them sorted |
| Ranking.DedupKeepsBest | streets_utils.py:263-264 | on sorted rows, each kept row scores at least as much as every row of its key |
| Ranking.RankedSpec | streets_utils.py:259-264 | the ranking is sorted, has every key of the candidates exactly once, takes rows from the scored candidates and keeps a best-scoring row per key |
| Ranking.HeadOfRanking | streets_utils.py:264 | the first `max_num` ranked rows: at most `max_num`; a row whose key is left out scores no more than any kept row; when fewer than `max_num` remain, no key is left out |
| Ranking.ToSuggestion | streets_utils.py:266-267 | the formatted address is street, the number after a space when there is one, a comma and space, and the city |
| Ranking.PrepareResultsSpec | streets_utils.py:253-269 | at most `max_num` suggestions in non-increasing score order, no street of a city twice, each made from a collected row and the best of its street; a street left out scores no more than any suggestion; when fewer than `max_num` come back, every street found is there |
| Suggestions.BuildSuggestions | streets_utils.py:210-212 | looking up then ranking computes the ranking of the collected frames |
| Suggestions.BuildSpec | streets_utils.py:210-212 | the suggestions of any readings are well ranked: bounded, sorted, one per street of a city, each made from a table row that a reading with a street asks for |
| Suggestions.GetSuggestions | streets_utils.py:272-274 | segmenting, looking up and ranking the text computes `Suggest` |
| Suggestions.SuggestSpec | streets_utils.py:272-274 | blank text gives no suggestions; any text gives suggestions well ranked for its readings |
| Suggestions.ChosenSuggestionReadBack | streets_utils.py:266 | sending back a suggestion's formatted address, with a phrase street and city, gives exactly one reading: that suggestion's street, number and city |

## Left out

- The web layer (`suggestions.py`) is not part of this model: request parsing, JSON output and the Flask routes.
- Reading the CSV files (`read_streets_csv`, `read_cities_pop`) is left out, along with their encodings and whitespace converters. The tables are taken as parameters, already loaded.
- Assembling the street table (`get_streets_with_pop`) is not modelled. This covers the self-join that adds official names, the `city_street_code` columns and the sort by distance from region 51. The table is a parameter in its final row order; only its `official_factor` column is modelled, as `Tables.OfficialFactor`.
- Columns the pipeline carries but never reads are not modelled: region codes and names, `total_pop`, `city_street_code`, the official street name.
- Ranking.PrepareResults: when `max_num` leaves no ranked row (zero, or negative enough to drop every row) although rows were found, the source fails at line 267: pandas' row-wise `apply` on an empty frame gives a frame, not a column, and the assignment raises an error. The model returns no suggestions in that case instead of an error.
- Tables.PopScores: a zero working-age total gives `None` here. Pandas would give NaN scores.
- Cities with no row in the population table get a NaN population score after the join; the model gives every street row a real `popScore`.
- Floating point is modelled as exact reals. Rounding and NaN are not modelled.
- Character classes are approximations of Python's Unicode classes: `\W`/`\d` letters outside ASCII and Hebrew, and non-ASCII digits, are not modelled.
- Ranking.SortByScore: pandas' `sort_values` is not stable, so the order of rows with equal scores is not promised. The model fixes one order (insertion sort), and every property proved holds for any order of ties.
- A `None` text is not modelled: text is always a string. The empty and blank cases are modelled.
- Helpers the pipeline never calls are left out: `fix_cities`, `fix_dict_with_cities`, `dict_with_possible_cities`, `words_contained`, `get_cities`.
- The city registry is the list of city names in the order of the city table; other city columns are not modelled.
