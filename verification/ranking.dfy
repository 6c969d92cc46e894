/**
 * Ranking the rows the lookup found: each candidate is scored by how close
 * the typed street and city are to the row's names, by its city's
 * population and by the reading's format factor; the candidates are sorted
 * by score, only the best row of each street of each city is kept, and the
 * first rows become the suggestions.
 */
module Ranking {
  import opened Seqs
  import opened Tables
  import opened Collector
  import Patterns

  // ----- Similarity and score -----

  function Min(a: nat, b: nat): nat {
    if a <= b then a else b
  }

  /**
   * `similar`: the quick upper bound on the match ratio of two strings that
   * looks only at their lengths, twice the shorter length over the total;
   * two empty strings are fully similar.
   */
  function Similar(a: string, b: string): (r: real)
    ensures 0.0 <= r <= 1.0
    ensures r == 1.0 <==> |a| == |b|
  {
    var total := |a| + |b|;
    if total == 0 then 1.0
    else
      RatioFacts(Min(|a|, |b|), total);
      (2 * Min(|a|, |b|)) as real / total as real
  }

  lemma RatioFacts(m: nat, total: nat)
    requires total > 0 && 2 * m <= total
    ensures 0.0 <= (2 * m) as real / total as real <= 1.0
    ensures (2 * m) as real / total as real == 1.0 <==> 2 * m == total
  {
    var q := (2 * m) as real / total as real;
    assert q * total as real == (2 * m) as real;
  }

  /** The order of the two strings does not matter. */
  lemma SimilarSymmetric(a: string, b: string)
    ensures Similar(a, b) == Similar(b, a)
  {
    assert Min(|a|, |b|) == Min(|b|, |a|);
  }

  /**
   * The `score` column: the street and city similarities plus the population
   * score, scaled by the reading's format factor and the official-name bonus.
   */
  function Score(c: Candidate): real {
    (Similar(c.row.streetName, c.streetInput) + Similar(c.row.cityName, c.cityInput) + c.row.popScore)
      * c.formatFactor * OfficialFactor(c.row.isOfficialName)
  }

  /** With a population score in [0, 1], a score lies between 0 and 3.03 times the format factor. */
  lemma ScoreBounds(c: Candidate)
    requires 0.0 <= c.row.popScore <= 1.0 && c.formatFactor >= 0.0
    ensures 0.0 <= Score(c) <= 3.03 * c.formatFactor
  {
    var base := Similar(c.row.streetName, c.streetInput) + Similar(c.row.cityName, c.cityInput) + c.row.popScore;
    var f := OfficialFactor(c.row.isOfficialName);
    assert 0.0 <= base <= 3.0;
    assert Score(c) == base * c.formatFactor * f;
    ProductBounds(base, c.formatFactor, f);
    assert base * c.formatFactor * f <= 3.03 * c.formatFactor;
    assert Score(c) <= 3.03 * c.formatFactor;
  }

  lemma ProductBounds(base: real, ff: real, f: real)
    requires 0.0 <= base <= 3.0 && ff >= 0.0 && 1.0 <= f <= 1.01
    ensures 0.0 <= base * ff * f <= 3.03 * ff
  {
    assert base * ff <= 3.0 * ff;
    assert base * ff * f <= 3.0 * ff * f;
    assert 3.0 * ff * f <= 3.0 * ff * 1.01;
  }

  /**
   * The official name of a street outranks the same row under a synonym
   * whenever the row's score is positive.
   */
  lemma OfficialOutranksSynonym(c: Candidate)
    requires c.row.isOfficialName
    requires c.formatFactor > 0.0
    requires Similar(c.row.streetName, c.streetInput) + Similar(c.row.cityName, c.cityInput) + c.row.popScore > 0.0
    ensures Score(c) > Score(c.(row := c.row.(isOfficialName := false)))
  {
    var base := Similar(c.row.streetName, c.streetInput) + Similar(c.row.cityName, c.cityInput) + c.row.popScore;
    var x := base * c.formatFactor;
    assert x > 0.0;
    assert x * 1.01 > x * 1.0;
  }

  /** A candidate with its similarity and score columns. */
  datatype ScoredRow = ScoredRow(cand: Candidate, streetSimilarity: real, citySimilarity: real, score: real)

  /** Adds the `street_similarity`, `city_similarity` and `score` columns. */
  function Scored(c: Candidate): (s: ScoredRow)
    ensures s.cand == c && s.score == Score(c)
    ensures s.streetSimilarity == Similar(c.row.streetName, c.streetInput)
    ensures s.citySimilarity == Similar(c.row.cityName, c.cityInput)
  {
    ScoredRow(c, Similar(c.row.streetName, c.streetInput), Similar(c.row.cityName, c.cityInput), Score(c))
  }

  // ----- Sorting by score -----

  /** Scores never increase along `s`. */
  predicate SortedByScore(s: seq<ScoredRow>) {
    forall i, j :: 0 <= i < j < |s| ==> s[i].score >= s[j].score
  }

  /** Puts `x` into the sorted `s` before the first element scoring no more than it. */
  function Insert(x: ScoredRow, s: seq<ScoredRow>): (r: seq<ScoredRow>)
    requires SortedByScore(s)
    ensures SortedByScore(r)
    ensures multiset(r) == multiset(s) + multiset{x}
  {
    if s == [] then [x]
    else if x.score >= s[0].score then
      FirstIsBest(s);
      ConsSorted(x, s);
      assert s == [s[0]] + s[1..];
      [x] + s
    else
      var t := Insert(x, s[1..]);
      assert s == [s[0]] + s[1..];
      FirstIsBest(s);
      InsertedFrom(x, s[1..], t);
      ConsSorted(s[0], t);
      [s[0]] + t
  }

  /** A row scoring at least as much as every row of a sorted sequence can go first. */
  lemma ConsSorted(a: ScoredRow, t: seq<ScoredRow>)
    requires SortedByScore(t)
    requires forall y :: y in t ==> y.score <= a.score
    ensures SortedByScore([a] + t)
  {
    forall i, j | 0 <= i < j < |[a] + t| ensures ([a] + t)[i].score >= ([a] + t)[j].score {
      assert ([a] + t)[j] == t[j - 1];
      if i > 0 {
        assert ([a] + t)[i] == t[i - 1];
      } else {
        assert t[j - 1] in t;
      }
    }
  }

  /** The rows of a sequence with `x` inserted are `x` and the rows of `s`. */
  lemma InsertedFrom(x: ScoredRow, s: seq<ScoredRow>, t: seq<ScoredRow>)
    requires multiset(t) == multiset(s) + multiset{x}
    ensures forall y :: y in t ==> y == x || y in s
  {
    forall y | y in t ensures y == x || y in s {
      assert y in multiset(t);
    }
  }

  /** `sort_values(by='score', ascending=False)`: the rows from the highest score down. */
  function SortByScore(s: seq<ScoredRow>): (r: seq<ScoredRow>)
    ensures SortedByScore(r)
    ensures multiset(r) == multiset(s)
  {
    if s == [] then []
    else
      assert s == [s[0]] + s[1..];
      Insert(s[0], SortByScore(s[1..]))
  }

  // ----- One row per street of each city -----

  /** A street of a city: synonyms of one street share their official code. */
  function Key(s: ScoredRow): (int, int) {
    (s.cand.row.cityCode, s.cand.row.officialCode)
  }

  /** The keys of the rows in `s`. */
  function KeysOf(s: seq<ScoredRow>): set<(int, int)> {
    set x | x in s :: Key(x)
  }

  /**
   * `drop_duplicates(['city_code', 'official_code'])` after the keys in
   * `seen`: the first row of each key not yet seen.
   */
  function DedupFrom(s: seq<ScoredRow>, seen: set<(int, int)>): (r: seq<ScoredRow>)
    ensures SubsequenceOf(r, s)
    ensures forall x :: x in r ==> x in s
    ensures forall i, j :: 0 <= i < j < |r| ==> Key(r[i]) != Key(r[j])
    ensures KeysOf(r) == KeysOf(s) - seen
    decreases |s|
  {
    if s == [] then []
    else
      var t0 := DedupFrom(s[1..], seen);
      var t1 := DedupFrom(s[1..], seen + {Key(s[0])});
      KeysCons(s);
      if Key(s[0]) in seen then
        t0
      else
        KeysCons([s[0]] + t1);
        assert ([s[0]] + t1)[1..] == t1;
        [s[0]] + t1
  }

  /** Each kept row is the first row of its key, as `drop_duplicates` keeps the first. */
  lemma {:induction false} DedupKeepsFirst(s: seq<ScoredRow>, seen: set<(int, int)>)
    ensures forall x :: x in DedupFrom(s, seen) ==> FirstOfKey(s, x)
    decreases |s|
  {
    if s != [] {
      var r := DedupFrom(s, seen);
      if Key(s[0]) in seen {
        var t := DedupFrom(s[1..], seen);
        DedupKeepsFirst(s[1..], seen);
        assert forall x :: x in t ==> Key(x) in KeysOf(t);
        FirstOfKeyTail(s, t);
      } else {
        var t := DedupFrom(s[1..], seen + {Key(s[0])});
        DedupKeepsFirst(s[1..], seen + {Key(s[0])});
        assert forall x :: x in t ==> Key(x) in KeysOf(t);
        FirstOfKeyTail(s, t);
        assert FirstOfKey(s, s[0]) by { assert s[0] == s[0]; }
        assert r == [s[0]] + t;
      }
    }
  }

  /** `x` is the first row of `s` with its key. */
  predicate FirstOfKey(s: seq<ScoredRow>, x: ScoredRow) {
    exists k :: 0 <= k < |s| && s[k] == x && forall m :: 0 <= m < k ==> Key(s[m]) != Key(x)
  }

  /** The first row of its key after the head, with a key other than the head's, is first in the whole. */
  lemma FirstOfKeyTail(s: seq<ScoredRow>, t: seq<ScoredRow>)
    requires s != []
    requires forall x :: x in t ==> FirstOfKey(s[1..], x) && Key(x) != Key(s[0])
    ensures forall x :: x in t ==> FirstOfKey(s, x)
  {
    forall x | x in t ensures FirstOfKey(s, x) {
      var k :| 0 <= k < |s[1..]| && s[1..][k] == x && forall m :: 0 <= m < k ==> Key(s[1..][m]) != Key(x);
      forall m | 0 <= m < k + 1 ensures Key(s[m]) != Key(x) {
        if m > 0 {
          assert s[m] == s[1..][m - 1];
        }
      }
      assert s[k + 1] == x;
    }
  }

  lemma KeysCons(s: seq<ScoredRow>)
    requires s != []
    ensures KeysOf(s) == {Key(s[0])} + KeysOf(s[1..])
  {
    assert s == [s[0]] + s[1..];
    assert forall x :: x in s <==> x == s[0] || x in s[1..];
  }

  /** The first row of a sorted sequence scores at least as much as every row. */
  lemma FirstIsBest(s: seq<ScoredRow>)
    requires s != [] && SortedByScore(s)
    ensures forall x :: x in s ==> x.score <= s[0].score
  {
    forall x | x in s ensures x.score <= s[0].score {
      var k :| 0 <= k < |s| && s[k] == x;
    }
  }

  /** On sorted rows the kept rows stay sorted. */
  lemma {:induction false} DedupSorted(s: seq<ScoredRow>, seen: set<(int, int)>)
    requires SortedByScore(s)
    ensures SortedByScore(DedupFrom(s, seen))
    decreases |s|
  {
    if s != [] {
      var rest := s[1..];
      assert SortedByScore(rest);
      if Key(s[0]) in seen {
        DedupSorted(rest, seen);
      } else {
        var t := DedupFrom(rest, seen + {Key(s[0])});
        DedupSorted(rest, seen + {Key(s[0])});
        FirstIsBest(s);
        assert forall x :: x in t ==> x in s by {
          assert s == [s[0]] + rest;
        }
        ConsSorted(s[0], t);
      }
    }
  }

  /** Each row of `r` scores at least as much as every row of `s` with its key. */
  predicate KeepsBest(r: seq<ScoredRow>, s: seq<ScoredRow>) {
    forall i, x :: 0 <= i < |r| && x in s && Key(x) == Key(r[i]) ==> x.score <= r[i].score
  }

  /** On sorted rows each kept row scores at least as much as every row with its key. */
  lemma {:induction false} DedupKeepsBest(s: seq<ScoredRow>, seen: set<(int, int)>)
    requires SortedByScore(s)
    ensures KeepsBest(DedupFrom(s, seen), s)
    decreases |s|
  {
    if s != [] {
      var rest := s[1..];
      assert s == [s[0]] + rest;
      assert SortedByScore(rest);
      if Key(s[0]) in seen {
        DedupKeepsBest(rest, seen);
        BestSkip(s[0], DedupFrom(rest, seen), rest);
      } else {
        var t := DedupFrom(rest, seen + {Key(s[0])});
        DedupKeepsBest(rest, seen + {Key(s[0])});
        FirstIsBest(s);
        BestCons(s[0], t, rest);
      }
    }
  }

  /** A first row whose key the kept rows do not have changes nothing for them. */
  lemma BestSkip(a: ScoredRow, t: seq<ScoredRow>, rest: seq<ScoredRow>)
    requires KeepsBest(t, rest) && Key(a) !in KeysOf(t)
    ensures KeepsBest(t, [a] + rest)
  {
    forall i, x | 0 <= i < |t| && x in [a] + rest && Key(x) == Key(t[i]) ensures x.score <= t[i].score {
      assert t[i] in t;
      assert x in rest;
    }
  }

  /** Keeping a first row that scores at least as much as every row. */
  lemma BestCons(a: ScoredRow, t: seq<ScoredRow>, rest: seq<ScoredRow>)
    requires KeepsBest(t, rest) && Key(a) !in KeysOf(t)
    requires forall x :: x in [a] + rest ==> x.score <= a.score
    ensures KeepsBest([a] + t, [a] + rest)
  {
    var r := [a] + t;
    forall i, x | 0 <= i < |r| && x in [a] + rest && Key(x) == Key(r[i]) ensures x.score <= r[i].score {
      if i > 0 {
        assert r[i] == t[i - 1] && t[i - 1] in t;
        assert x in rest;
      }
    }
  }

  lemma BestAt(r: seq<ScoredRow>, s: seq<ScoredRow>, i: int, x: ScoredRow)
    requires KeepsBest(r, s) && 0 <= i < |r| && x in s && Key(x) == Key(r[i])
    ensures x.score <= r[i].score
  {
  }

  /**
   * The ranking: the candidates scored, sorted by score, one row per key.
   */
  function Ranked(cands: seq<Candidate>): seq<ScoredRow> {
    DedupFrom(SortByScore(Map(cands, Scored)), {})
  }

  /**
   * The ranking is sorted, has one row for every key of the candidates and
   * no key twice, takes its rows from the candidates, and each of its rows
   * is a best-scoring row of its key.
   */
  lemma RankedSpec(cands: seq<Candidate>)
    ensures var d, scored := Ranked(cands), Map(cands, Scored);
      && SortedByScore(d)
      && (forall i, j :: 0 <= i < j < |d| ==> Key(d[i]) != Key(d[j]))
      && KeysOf(d) == KeysOf(scored)
      && (forall x :: x in d ==> x in scored)
      && (forall i, x :: 0 <= i < |d| && x in scored && Key(x) == Key(d[i]) ==> x.score <= d[i].score)
  {
    var scored := Map(cands, Scored);
    var sorted := SortByScore(scored);
    assert forall x :: x in sorted <==> x in scored by {
      assert forall x :: x in sorted <==> x in multiset(sorted);
    }
    assert KeysOf(sorted) == KeysOf(scored);
    DedupSorted(sorted, {});
    DedupKeepsBest(sorted, {});
  }

  /** The scored rows are exactly the candidates, scored. */
  lemma ScoredMembers(cands: seq<Candidate>)
    ensures forall x :: x in Map(cands, Scored) <==> x.cand in cands && x == Scored(x.cand)
  {
    var scored := Map(cands, Scored);
    forall x ensures x in scored <==> x.cand in cands && x == Scored(x.cand) {
      if x.cand in cands && x == Scored(x.cand) {
        var k :| 0 <= k < |cands| && cands[k] == x.cand;
        assert scored[k] == x;
      }
    }
  }

  // ----- The suggestions -----

  /**
   * One suggestion: the row (without its population score and official-name
   * factor), what was typed, the similarities, the score and the address as
   * it is shown.
   */
  datatype Suggestion = Suggestion(
    cityCode: int,
    cityName: string,
    streetCode: int,
    streetName: string,
    officialCode: int,
    isOfficialName: bool,
    num: string,
    streetInput: string,
    cityInput: string,
    formatFactor: real,
    streetSimilarity: real,
    citySimilarity: real,
    score: real,
    formattedAddress: string)

  /** A ranked row as it is returned, with the address formatted: the street, the number if there is one, the city. */
  function ToSuggestion(x: ScoredRow): (s: Suggestion)
    ensures s.formattedAddress == Patterns.FormatAddress(x.cand.row.streetName, x.cand.num, x.cand.row.cityName)
  {
    var c := x.cand;
    Suggestion(
      c.row.cityCode, c.row.cityName, c.row.streetCode, c.row.streetName, c.row.officialCode,
      c.row.isOfficialName, c.num, c.streetInput, c.cityInput, c.formatFactor,
      x.streetSimilarity, x.citySimilarity, x.score,
      c.row.streetName + (if c.num != "" then " " + c.num else "") + ", " + c.row.cityName)
  }

  /** The street a suggestion stands for. */
  function SuggestionKey(s: Suggestion): (int, int) {
    (s.cityCode, s.officialCode)
  }

  function SuggestionKeys(r: seq<Suggestion>): set<(int, int)> {
    set s | s in r :: SuggestionKey(s)
  }

  /** The keys of the candidates in `s`. */
  function CandidateKeys(s: seq<Candidate>): set<(int, int)> {
    set c | c in s :: (c.row.cityCode, c.row.officialCode)
  }

  /**
   * `prepare_results`: the frames are put together with repeated rows
   * dropped, ranked, and the first `maxNum` rows are returned.
   */
  function PrepareResults(dfs: seq<seq<Candidate>>, maxNum: int): seq<Suggestion> {
    if dfs == [] then []
    else
      var all := Distinct(Concat(dfs));
      if all == [] then []
      else Map(Head(Ranked(all), maxNum), ToSuggestion)
  }

  /**
   * The first `maxNum` rows of a ranking: sorted, no key twice, from the
   * scored rows and best of their keys; every row whose key is left out
   * scores no more than any of them, and when fewer than `maxNum` remain no
   * key is left out.
   */
  lemma HeadOfRanking(d: seq<ScoredRow>, scored: seq<ScoredRow>, maxNum: int)
    requires SortedByScore(d) && KeepsBest(d, scored)
    requires forall i, j :: 0 <= i < j < |d| ==> Key(d[i]) != Key(d[j])
    requires KeysOf(d) == KeysOf(scored)
    requires forall x :: x in d ==> x in scored
    ensures var h := Head(d, maxNum);
      && (maxNum >= 0 ==> |h| <= maxNum)
      && SortedByScore(h) && KeepsBest(h, scored)
      && (forall i, j :: 0 <= i < j < |h| ==> Key(h[i]) != Key(h[j]))
      && (forall x :: x in h ==> x in scored)
      && (forall x, i :: x in scored && Key(x) !in KeysOf(h) && 0 <= i < |h| ==> x.score <= h[i].score)
      && (0 <= |h| < maxNum ==> KeysOf(h) == KeysOf(scored))
  {
    var h := Head(d, maxNum);
    assert forall i :: 0 <= i < |h| ==> h[i] == d[i];
    forall x, i | x in scored && Key(x) !in KeysOf(h) && 0 <= i < |h| ensures x.score <= h[i].score {
      assert Key(x) in KeysOf(d);
      var y :| y in d && Key(y) == Key(x);
      var k :| 0 <= k < |d| && d[k] == y;
      BestAt(d, scored, k, x);
    }
    if 0 <= |h| < maxNum {
      assert h == d;
    }
  }

  /** The suggestions made from rows keep their scores and keys. */
  lemma SuggestionsOf(h: seq<ScoredRow>)
    ensures var r := Map(h, ToSuggestion);
      && (forall i :: 0 <= i < |r| ==> r[i].score == h[i].score && SuggestionKey(r[i]) == Key(h[i]))
      && SuggestionKeys(r) == KeysOf(h)
  {
    var r := Map(h, ToSuggestion);
    forall key | key in KeysOf(h) ensures key in SuggestionKeys(r) {
      var x :| x in h && Key(x) == key;
      var k :| 0 <= k < |h| && h[k] == x;
      assert r[k] in r;
    }
    forall key | key in SuggestionKeys(r) ensures key in KeysOf(h) {
      var y :| y in r && SuggestionKey(y) == key;
      var k :| 0 <= k < |r| && r[k] == y;
      assert h[k] in h;
    }
  }

  /** The rows of the frames, scored: the same rows and the same keys. */
  lemma ScoredRows(rows: seq<Candidate>)
    ensures var scored := Map(Distinct(rows), Scored);
      && (forall c :: c in rows <==> Scored(c) in scored)
      && (forall x :: x in scored ==> x.cand in rows && x == Scored(x.cand))
      && KeysOf(scored) == CandidateKeys(rows)
  {
    var all := Distinct(rows);
    var scored := Map(all, Scored);
    ScoredMembers(all);
    forall key | key in CandidateKeys(rows) ensures key in KeysOf(scored) {
      var c :| c in rows && (c.row.cityCode, c.row.officialCode) == key;
      assert Key(Scored(c)) == key;
    }
  }

  /**
   * The suggestions: at most `maxNum` of them, from the highest score down,
   * no street of a city twice, each made from a row some frame holds and
   * scoring at least as much as every row of its street; a street left out
   * scores no more than any suggestion, and when fewer than `maxNum` are
   * returned no street is left out.
   */
  lemma PrepareResultsSpec(dfs: seq<seq<Candidate>>, maxNum: int)
    ensures var r, rows := PrepareResults(dfs, maxNum), Concat(dfs);
      && (maxNum >= 0 ==> |r| <= maxNum)
      && (forall i, j :: 0 <= i < j < |r| ==> r[i].score >= r[j].score)
      && (forall i, j :: 0 <= i < j < |r| ==> SuggestionKey(r[i]) != SuggestionKey(r[j]))
      && (forall i :: 0 <= i < |r| ==> exists c :: c in rows && r[i] == ToSuggestion(Scored(c)))
      && (forall i, c :: 0 <= i < |r| && c in rows && (c.row.cityCode, c.row.officialCode) == SuggestionKey(r[i])
            ==> Score(c) <= r[i].score)
      && (forall c, i :: c in rows && (c.row.cityCode, c.row.officialCode) !in SuggestionKeys(r) && 0 <= i < |r|
            ==> Score(c) <= r[i].score)
      && (0 <= |r| < maxNum ==> SuggestionKeys(r) == CandidateKeys(rows))
  {
    var rows := Concat(dfs);
    var all := Distinct(rows);
    var r := PrepareResults(dfs, maxNum);
    if dfs == [] || all == [] {
      assert rows == [] by {
        if dfs != [] {
          assert forall c :: c !in rows;
        }
      }
    } else {
      var scored := Map(all, Scored);
      var d := Ranked(all);
      var h := Head(d, maxNum);
      RankedSpec(all);
      ScoredRows(rows);
      HeadOfRanking(d, scored, maxNum);
      SuggestionsOf(h);
      assert r == Map(h, ToSuggestion);
      forall i | 0 <= i < |r| ensures exists c :: c in rows && r[i] == ToSuggestion(Scored(c)) {
        assert h[i] in h;
        assert h[i].cand in rows && r[i] == ToSuggestion(Scored(h[i].cand));
      }
      forall i, c | 0 <= i < |r| && c in rows && (c.row.cityCode, c.row.officialCode) == SuggestionKey(r[i])
        ensures Score(c) <= r[i].score
      {
        BestAt(h, scored, i, Scored(c));
      }
      forall c, i | c in rows && (c.row.cityCode, c.row.officialCode) !in SuggestionKeys(r) && 0 <= i < |r|
        ensures Score(c) <= r[i].score
      {
        assert Scored(c) in scored && Key(Scored(c)) !in KeysOf(h);
      }
    }
  }
}
