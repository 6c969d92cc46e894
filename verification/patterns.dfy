/**
 * The four address patterns of the segmenter (streets_utils.py:67-89) and the
 * address format that suggestions are shown in.
 *
 * A word is a run of word characters; a phrase is words separated by exactly
 * one whitespace character. Each pattern is matched at the start of the text
 * only (trailing text is ignored), greedily. For these four patterns the
 * greedy scan never has to back up: every run is followed by a character that
 * the run's own class excludes, so the scanner below finds the very match a
 * backtracking engine finds. Each matcher is paired with a predicate that
 * describes that match by its cut positions, and a lemma shows they agree.
 */
module Patterns {
  import opened Wrappers
  import opened Text

  /** The named groups of a match; an optional group that did not take part is `None`. */
  datatype Groups = Groups(street: string, num: Option<string>, city: Option<string>)

  /** Every character of `s[i..j]` satisfies `p`. */
  predicate Run(s: string, i: nat, j: nat, p: char -> bool) {
    i <= j <= |s| && forall k: nat :: i <= k < j ==> p(s[k])
  }

  /** A non-empty run of digits, the `\d+` group. */
  predicate IsNumber(s: string) {
    s != [] && Run(s, 0, |s|, IsDigit)
  }

  /**
   * `s[i..j]` is a phrase: words separated by single whitespace characters.
   * It starts and ends with a word character, holds only word characters and
   * whitespace, and never two non-word characters in a row.
   */
  ghost predicate PhraseAt(s: string, i: nat, j: nat) {
    && i < j <= |s| && IsWordChar(s[i]) && IsWordChar(s[j - 1])
    && (forall k :: i <= k < j ==> IsWordChar(s[k]) || IsSpace(s[k]))
    && (forall k, m :: i <= k < m < j && m == k + 1 ==> IsWordChar(s[k]) || IsWordChar(s[m]))
  }

  ghost predicate IsPhrase(p: string) {
    PhraseAt(p, 0, |p|)
  }

  /** A phrase ending at `j` cannot be extended by another character or word. */
  predicate PhraseStops(s: string, j: nat)
    requires j <= |s|
  {
    (j == |s| || !IsWordChar(s[j])) && !(j + 1 < |s| && IsSpace(s[j]) && IsWordChar(s[j + 1]))
  }

  /** The end of the longest phrase starting at `i` (the greedy `word(?:\sword)*`). */
  function PhraseEnd(s: string, i: nat): (j: nat)
    requires i < |s| && IsWordChar(s[i])
    ensures i < j <= |s| && PhraseStops(s, j)
    decreases |s| - i
  {
    var k := SpanEnd(s, i, IsWordChar);
    if k + 1 < |s| && IsSpace(s[k]) && IsWordChar(s[k + 1]) then PhraseEnd(s, k + 1) else k
  }

  lemma {:induction false} PhraseEndIsPhrase(s: string, i: nat)
    requires i < |s| && IsWordChar(s[i])
    ensures PhraseAt(s, i, PhraseEnd(s, i))
    decreases |s| - i
  {
    var k := SpanEnd(s, i, IsWordChar);
    if k + 1 < |s| && IsSpace(s[k]) && IsWordChar(s[k + 1]) {
      PhraseEndIsPhrase(s, k + 1);
      WordThenPhrase(s, i, k, PhraseEnd(s, k + 1));
    } else {
      WordIsPhrase(s, i, k);
    }
  }

  /** A single word is a phrase. */
  lemma WordIsPhrase(s: string, i: nat, k: nat)
    requires i < k && Run(s, i, k, IsWordChar)
    ensures PhraseAt(s, i, k)
  {
  }

  /** A word, one whitespace character and a phrase make a phrase. */
  lemma WordThenPhrase(s: string, i: nat, k: nat, j: nat)
    requires i < k && Run(s, i, k, IsWordChar) && k < |s| && IsSpace(s[k]) && PhraseAt(s, k + 1, j)
    ensures PhraseAt(s, i, j)
  {
    assert forall m :: i <= m < j ==> IsWordChar(s[m]) || IsSpace(s[m]) by {
      forall m | i <= m < j ensures IsWordChar(s[m]) || IsSpace(s[m]) {
        if m < k {
          assert IsWordChar(s[m]);
        } else if m > k {
          assert IsWordChar(s[m]) || IsSpace(s[m]);
        }
      }
    }
    forall m, n | i <= m < n < j && n == m + 1 ensures IsWordChar(s[m]) || IsWordChar(s[n]) {
      if m < k {
        assert IsWordChar(s[m]);
      } else if m == k {
        assert IsWordChar(s[k + 1]);
      } else {
        assert IsWordChar(s[m]) || IsWordChar(s[n]);
      }
    }
  }

  /** Inside a phrase there is no place where the phrase could stop. */
  lemma PhraseNoStopInside(s: string, i: nat, j: nat, m: nat)
    requires PhraseAt(s, i, j)
    ensures i < m < j ==> !PhraseStops(s, m)
  {
  }

  /** The greedy phrase scan ends exactly where a phrase that cannot be extended ends. */
  lemma PhraseEndIs(s: string, i: nat, j: nat)
    requires PhraseAt(s, i, j) && PhraseStops(s, j)
    ensures PhraseEnd(s, i) == j
  {
    var r := PhraseEnd(s, i);
    PhraseEndIsPhrase(s, i);
    PhraseNoStopInside(s, i, j, r);
    PhraseNoStopInside(s, i, r, j);
  }

  /** The greedy run scan ends exactly where a run that cannot be extended ends. */
  lemma SpanEndIs(s: string, i: nat, j: nat, p: char -> bool)
    requires Run(s, i, j, p) && (j == |s| || !p(s[j]))
    ensures SpanEnd(s, i, p) == j
  {
  }

  // ----- <STREET>, <CITY> <NUM> -----

  /**
   * The match of `street,\s*city\s*num` at the start of `t`: the street phrase
   * ends at `a`, a comma, whitespace up to `b`, the city phrase `t[b..c]`,
   * whitespace up to `d`, and the longest digit run `t[d..e]`.
   */
  ghost predicate NumberAfterAt(t: string, a: nat, b: nat, c: nat, d: nat, e: nat) {
    && 0 < a < b < c <= d < e <= |t|
    && PhraseAt(t, 0, a) && t[a] == ',' && Run(t, a + 1, b, IsSpace)
    && PhraseAt(t, b, c) && Run(t, c, d, IsSpace) && Run(t, d, e, IsDigit)
    && (e == |t| || !IsDigit(t[e]))
  }

  /** `number_after_formatted_address_re.match(t)`. */
  function MatchNumberAfterAddress(t: string): Option<Groups> {
    if t == [] || !IsWordChar(t[0]) then None
    else
      var a := PhraseEnd(t, 0);
      if a == |t| || t[a] != ',' then None
      else
        var b := SpanEnd(t, a + 1, IsSpace);
        if b == |t| || !IsWordChar(t[b]) then None
        else
          var c := PhraseEnd(t, b);
          var d := SpanEnd(t, c, IsSpace);
          if d == |t| || !IsDigit(t[d]) then None
          else
            var e := SpanEnd(t, d, IsDigit);
            Some(Groups(t[..a], Some(t[d..e]), Some(t[b..c])))
  }

  /** The matcher succeeds exactly on texts of the pattern's shape, with the groups that shape gives. */
  lemma NumberAfterAddressSpec(t: string)
    ensures MatchNumberAfterAddress(t).Some? ==>
      exists a: nat, b: nat, c: nat, d: nat, e: nat :: NumberAfterAt(t, a, b, c, d, e)
    ensures forall a: nat, b: nat, c: nat, d: nat, e: nat :: NumberAfterAt(t, a, b, c, d, e) ==>
      MatchNumberAfterAddress(t) == Some(Groups(t[..a], Some(t[d..e]), Some(t[b..c])))
  {
    if t != [] && IsWordChar(t[0]) {
      var a := PhraseEnd(t, 0);
      if a < |t| && t[a] == ',' {
        var b := SpanEnd(t, a + 1, IsSpace);
        if b < |t| && IsWordChar(t[b]) {
          var c := PhraseEnd(t, b);
          var d := SpanEnd(t, c, IsSpace);
          if d < |t| && IsDigit(t[d]) {
            var e := SpanEnd(t, d, IsDigit);
            PhraseEndIsPhrase(t, 0);
            PhraseEndIsPhrase(t, b);
            assert NumberAfterAt(t, a, b, c, d, e);
          }
        }
      }
    }
    forall a: nat, b: nat, c: nat, d: nat, e: nat | NumberAfterAt(t, a, b, c, d, e)
      ensures MatchNumberAfterAddress(t) == Some(Groups(t[..a], Some(t[d..e]), Some(t[b..c])))
    {
      NumberAfterAddressAt(t, a, b, c, d, e);
    }
  }

  lemma NumberAfterAddressAt(t: string, a: nat, b: nat, c: nat, d: nat, e: nat)
    requires NumberAfterAt(t, a, b, c, d, e)
    ensures MatchNumberAfterAddress(t) == Some(Groups(t[..a], Some(t[d..e]), Some(t[b..c])))
  {
    NumberAfterAddressStreet(t, a, b, c, d, e);
    NumberAfterAddressCity(t, a, b, c, d, e);
    NumberAfterAddressScan(t, a, b, c, d, e);
  }

  lemma NumberAfterAddressStreet(t: string, a: nat, b: nat, c: nat, d: nat, e: nat)
    requires NumberAfterAt(t, a, b, c, d, e)
    ensures PhraseEnd(t, 0) == a && SpanEnd(t, a + 1, IsSpace) == b
  {
    PhraseEndIs(t, 0, a);
    SpanEndIs(t, a + 1, b, IsSpace);
  }

  lemma NumberAfterAddressCity(t: string, a: nat, b: nat, c: nat, d: nat, e: nat)
    requires NumberAfterAt(t, a, b, c, d, e)
    ensures PhraseEnd(t, b) == c && SpanEnd(t, c, IsSpace) == d && SpanEnd(t, d, IsDigit) == e
  {
    StopsBeforeNumber(t, c, d, e);
    PhraseEndIs(t, b, c);
    SpanEndIs(t, c, d, IsSpace);
    SpanEndIs(t, d, e, IsDigit);
  }

  /** A phrase stops where optional whitespace and then a digit follow. */
  lemma StopsBeforeNumber(t: string, c: nat, d: nat, e: nat)
    requires c <= d < e && Run(t, c, d, IsSpace) && Run(t, d, e, IsDigit)
    ensures PhraseStops(t, c)
  {
    assert IsDigit(t[d]);
    assert c + 1 < d ==> IsSpace(t[c + 1]);
  }

  /** The scan of `MatchNumberAfterAddress` when each of its steps lands where given. */
  lemma NumberAfterAddressScan(t: string, a: nat, b: nat, c: nat, d: nat, e: nat)
    requires t != [] && IsWordChar(t[0]) && PhraseEnd(t, 0) == a && a < |t| && t[a] == ','
    requires SpanEnd(t, a + 1, IsSpace) == b && b < |t| && IsWordChar(t[b])
    requires PhraseEnd(t, b) == c && SpanEnd(t, c, IsSpace) == d && d < |t| && IsDigit(t[d])
    requires SpanEnd(t, d, IsDigit) == e
    ensures MatchNumberAfterAddress(t) == Some(Groups(t[..a], Some(t[d..e]), Some(t[b..c])))
  {
  }

  // ----- <STREET>[ <NUM>],[ <CITY>] -----

  /**
   * The match of `street(\s+num)?,\s*(city)?` at the start of `t`: the street
   * phrase ends at `a`; the number group is `t[a..n]` (whitespace up to `b`,
   * then digits), or absent when `a == b == n`; the comma is at `n`; whitespace
   * runs up to `f`; the city is the longest phrase `t[f..g]`, or absent when
   * `g == f` because no word starts at `f`.
   */
  ghost predicate FullAddressAt(t: string, a: nat, b: nat, n: nat, f: nat, g: nat) {
    && 0 < a <= b <= n < f <= g <= |t|
    && PhraseAt(t, 0, a)
    && (a == b == n || (a < b < n && Run(t, a, b, IsSpace) && Run(t, b, n, IsDigit)))
    && t[n] == ','
    && Run(t, n + 1, f, IsSpace) && (f == |t| || !IsSpace(t[f]))
    && (if g == f then f == |t| || !IsWordChar(t[f]) else PhraseAt(t, f, g) && PhraseStops(t, g))
  }

  /** The optional city group after the comma at `n`. */
  function CityAfterComma(t: string, n: nat): Option<string>
    requires n < |t|
  {
    var f := SpanEnd(t, n + 1, IsSpace);
    if f < |t| && IsWordChar(t[f]) then Some(t[f..PhraseEnd(t, f)]) else None
  }

  /** `full_address_re.match(t)`. */
  function MatchFullAddress(t: string): Option<Groups> {
    if t == [] || !IsWordChar(t[0]) then None
    else
      var a := PhraseEnd(t, 0);
      var b := SpanEnd(t, a, IsSpace);
      var n := SpanEnd(t, b, IsDigit);
      if a < |t| && t[a] == ',' then Some(Groups(t[..a], None, CityAfterComma(t, a)))
      else if a < b < n < |t| && t[n] == ',' then Some(Groups(t[..a], Some(t[a..n]), CityAfterComma(t, n)))
      else None
  }

  /** The groups `FullAddressAt` describes. */
  function FullAddressGroups(t: string, a: nat, n: nat, f: nat, g: nat): Groups
    requires a <= n <= |t| && f <= g <= |t|
  {
    Groups(t[..a], if n == a then None else Some(t[a..n]), if g == f then None else Some(t[f..g]))
  }

  lemma FullAddressSpec(t: string)
    ensures MatchFullAddress(t).Some? ==>
      exists a: nat, b: nat, n: nat, f: nat, g: nat :: FullAddressAt(t, a, b, n, f, g)
    ensures forall a: nat, b: nat, n: nat, f: nat, g: nat :: FullAddressAt(t, a, b, n, f, g) ==>
      MatchFullAddress(t) == Some(FullAddressGroups(t, a, n, f, g))
  {
    if t != [] && IsWordChar(t[0]) {
      var a := PhraseEnd(t, 0);
      var b := SpanEnd(t, a, IsSpace);
      var n := SpanEnd(t, b, IsDigit);
      PhraseEndIsPhrase(t, 0);
      if a < |t| && t[a] == ',' {
        FullAddressCityWitness(t, a, a, a);
      } else if a < b < n < |t| && t[n] == ',' {
        FullAddressCityWitness(t, a, b, n);
      }
    }
    forall a: nat, b: nat, n: nat, f: nat, g: nat | FullAddressAt(t, a, b, n, f, g)
      ensures MatchFullAddress(t) == Some(FullAddressGroups(t, a, n, f, g))
    {
      FullAddressAtMatches(t, a, b, n, f, g);
    }
  }

  /** Once street, number and comma are in place, the rest of the pattern always matches. */
  lemma FullAddressCityWitness(t: string, a: nat, b: nat, n: nat)
    requires 0 < a <= b <= n < |t| && PhraseAt(t, 0, a) && t[n] == ','
    requires a == b == n || (a < b < n && Run(t, a, b, IsSpace) && Run(t, b, n, IsDigit))
    ensures exists f: nat, g: nat :: FullAddressAt(t, a, b, n, f, g)
  {
    var f := SpanEnd(t, n + 1, IsSpace);
    if f < |t| && IsWordChar(t[f]) {
      var g := PhraseEnd(t, f);
      PhraseEndIsPhrase(t, f);
      assert FullAddressAt(t, a, b, n, f, g);
    } else {
      assert FullAddressAt(t, a, b, n, f, f);
    }
  }

  lemma FullAddressAtMatches(t: string, a: nat, b: nat, n: nat, f: nat, g: nat)
    requires FullAddressAt(t, a, b, n, f, g)
    ensures MatchFullAddress(t) == Some(FullAddressGroups(t, a, n, f, g))
  {
    FullAddressStreet(t, a, b, n, f, g);
    CityAfterCommaIs(t, n, f, g);
    FullAddressScan(t, a, b, n, if g == f then None else Some(t[f..g]));
  }

  lemma FullAddressStreet(t: string, a: nat, b: nat, n: nat, f: nat, g: nat)
    requires FullAddressAt(t, a, b, n, f, g)
    ensures PhraseEnd(t, 0) == a && SpanEnd(t, a, IsSpace) == b && SpanEnd(t, b, IsDigit) == n
  {
    if a < n {
      StopsBeforeNumber(t, a, b, n);
    }
    PhraseEndIs(t, 0, a);
    SpanEndIs(t, a, b, IsSpace);
    SpanEndIs(t, b, n, IsDigit);
  }

  lemma CityAfterCommaIs(t: string, n: nat, f: nat, g: nat)
    requires n < f <= g <= |t| && Run(t, n + 1, f, IsSpace) && (f == |t| || !IsSpace(t[f]))
    requires if g == f then f == |t| || !IsWordChar(t[f]) else PhraseAt(t, f, g) && PhraseStops(t, g)
    ensures CityAfterComma(t, n) == if g == f then None else Some(t[f..g])
  {
    SpanEndIs(t, n + 1, f, IsSpace);
    if g != f {
      PhraseEndIs(t, f, g);
    }
  }

  /** The scan of `MatchFullAddress` when each of its steps lands where given. */
  lemma FullAddressScan(t: string, a: nat, b: nat, n: nat, city: Option<string>)
    requires t != [] && IsWordChar(t[0]) && PhraseEnd(t, 0) == a
    requires SpanEnd(t, a, IsSpace) == b && SpanEnd(t, b, IsDigit) == n && n < |t| && t[n] == ','
    requires a == n || a < b < n
    requires city == CityAfterComma(t, n)
    ensures MatchFullAddress(t) == Some(Groups(t[..a], if n == a then None else Some(t[a..n]), city))
  {
  }

  // ----- <STREET> <NUM> <CITY> -----

  /**
   * The match of `street\s+num\s+city` at the start of `t`: the street phrase
   * ends at `a`, whitespace up to `b`, digits `t[b..e]`, whitespace up to `f`,
   * and the longest city phrase `t[f..g]`.
   */
  ghost predicate NoCommaAt(t: string, a: nat, b: nat, e: nat, f: nat, g: nat) {
    && 0 < a < b < e < f < g <= |t|
    && PhraseAt(t, 0, a) && Run(t, a, b, IsSpace) && Run(t, b, e, IsDigit)
    && Run(t, e, f, IsSpace) && PhraseAt(t, f, g) && PhraseStops(t, g)
  }

  /** `address_no_comma_re.match(t)`. */
  function MatchNoComma(t: string): Option<Groups> {
    if t == [] || !IsWordChar(t[0]) then None
    else
      var a := PhraseEnd(t, 0);
      var b := SpanEnd(t, a, IsSpace);
      if b == a || b == |t| || !IsDigit(t[b]) then None
      else
        var e := SpanEnd(t, b, IsDigit);
        var f := SpanEnd(t, e, IsSpace);
        if f == e || f == |t| || !IsWordChar(t[f]) then None
        else Some(Groups(t[..a], Some(t[b..e]), Some(t[f..PhraseEnd(t, f)])))
  }

  lemma NoCommaSpec(t: string)
    ensures MatchNoComma(t).Some? ==>
      exists a: nat, b: nat, e: nat, f: nat, g: nat :: NoCommaAt(t, a, b, e, f, g)
    ensures forall a: nat, b: nat, e: nat, f: nat, g: nat :: NoCommaAt(t, a, b, e, f, g) ==>
      MatchNoComma(t) == Some(Groups(t[..a], Some(t[b..e]), Some(t[f..g])))
  {
    if t != [] && IsWordChar(t[0]) {
      var a := PhraseEnd(t, 0);
      var b := SpanEnd(t, a, IsSpace);
      if b != a && b < |t| && IsDigit(t[b]) {
        var e := SpanEnd(t, b, IsDigit);
        var f := SpanEnd(t, e, IsSpace);
        if f != e && f < |t| && IsWordChar(t[f]) {
          var g := PhraseEnd(t, f);
          PhraseEndIsPhrase(t, 0);
          PhraseEndIsPhrase(t, f);
          assert NoCommaAt(t, a, b, e, f, g);
        }
      }
    }
    forall a: nat, b: nat, e: nat, f: nat, g: nat | NoCommaAt(t, a, b, e, f, g)
      ensures MatchNoComma(t) == Some(Groups(t[..a], Some(t[b..e]), Some(t[f..g])))
    {
      NoCommaAtMatches(t, a, b, e, f, g);
    }
  }

  lemma NoCommaAtMatches(t: string, a: nat, b: nat, e: nat, f: nat, g: nat)
    requires NoCommaAt(t, a, b, e, f, g)
    ensures MatchNoComma(t) == Some(Groups(t[..a], Some(t[b..e]), Some(t[f..g])))
  {
    NoCommaStreet(t, a, b, e, f, g);
    NoCommaCity(t, a, b, e, f, g);
    NoCommaScan(t, a, b, e, f, g);
  }

  lemma NoCommaStreet(t: string, a: nat, b: nat, e: nat, f: nat, g: nat)
    requires NoCommaAt(t, a, b, e, f, g)
    ensures PhraseEnd(t, 0) == a && SpanEnd(t, a, IsSpace) == b && SpanEnd(t, b, IsDigit) == e
  {
    StopsBeforeNumber(t, a, b, e);
    PhraseEndIs(t, 0, a);
    SpanEndIs(t, a, b, IsSpace);
    SpanEndIs(t, b, e, IsDigit);
  }

  lemma NoCommaCity(t: string, a: nat, b: nat, e: nat, f: nat, g: nat)
    requires NoCommaAt(t, a, b, e, f, g)
    ensures SpanEnd(t, e, IsSpace) == f && PhraseEnd(t, f) == g
  {
    SpanEndIs(t, e, f, IsSpace);
    PhraseEndIs(t, f, g);
  }

  /** The scan of `MatchNoComma` when each of its steps lands where given. */
  lemma NoCommaScan(t: string, a: nat, b: nat, e: nat, f: nat, g: nat)
    requires t != [] && IsWordChar(t[0]) && PhraseEnd(t, 0) == a
    requires SpanEnd(t, a, IsSpace) == b && a < b < |t| && IsDigit(t[b])
    requires SpanEnd(t, b, IsDigit) == e && SpanEnd(t, e, IsSpace) == f && e < f < |t| && IsWordChar(t[f])
    requires PhraseEnd(t, f) == g
    ensures MatchNoComma(t) == Some(Groups(t[..a], Some(t[b..e]), Some(t[f..g])))
  {
  }

  // ----- <STREET> <NUM> -----

  /**
   * The match of `street\s+num` at the start of `t`: the street phrase ends at
   * `a`, whitespace up to `b`, and the longest digit run `t[b..e]`.
   */
  ghost predicate StreetWithNumAt(t: string, a: nat, b: nat, e: nat) {
    && 0 < a < b < e <= |t|
    && PhraseAt(t, 0, a) && Run(t, a, b, IsSpace) && Run(t, b, e, IsDigit)
    && (e == |t| || !IsDigit(t[e]))
  }

  /** `street_with_num_re.match(t)`: there is no city group. */
  function MatchStreetWithNum(t: string): Option<Groups> {
    if t == [] || !IsWordChar(t[0]) then None
    else
      var a := PhraseEnd(t, 0);
      var b := SpanEnd(t, a, IsSpace);
      if b == a || b == |t| || !IsDigit(t[b]) then None
      else Some(Groups(t[..a], Some(t[b..SpanEnd(t, b, IsDigit)]), None))
  }

  lemma StreetWithNumSpec(t: string)
    ensures MatchStreetWithNum(t).Some? ==>
      exists a: nat, b: nat, e: nat :: StreetWithNumAt(t, a, b, e)
    ensures forall a: nat, b: nat, e: nat :: StreetWithNumAt(t, a, b, e) ==>
      MatchStreetWithNum(t) == Some(Groups(t[..a], Some(t[b..e]), None))
  {
    if t != [] && IsWordChar(t[0]) {
      var a := PhraseEnd(t, 0);
      var b := SpanEnd(t, a, IsSpace);
      if b != a && b < |t| && IsDigit(t[b]) {
        var e := SpanEnd(t, b, IsDigit);
        PhraseEndIsPhrase(t, 0);
        assert StreetWithNumAt(t, a, b, e);
      }
    }
    forall a: nat, b: nat, e: nat | StreetWithNumAt(t, a, b, e)
      ensures MatchStreetWithNum(t) == Some(Groups(t[..a], Some(t[b..e]), None))
    {
      StreetWithNumAtMatches(t, a, b, e);
    }
  }

  lemma StreetWithNumAtMatches(t: string, a: nat, b: nat, e: nat)
    requires StreetWithNumAt(t, a, b, e)
    ensures MatchStreetWithNum(t) == Some(Groups(t[..a], Some(t[b..e]), None))
  {
    StopsBeforeNumber(t, a, b, e);
    PhraseEndIs(t, 0, a);
    SpanEndIs(t, a, b, IsSpace);
    SpanEndIs(t, b, e, IsDigit);
    StreetWithNumScan(t, a, b, e);
  }

  /** The scan of `MatchStreetWithNum` when each of its steps lands where given. */
  lemma StreetWithNumScan(t: string, a: nat, b: nat, e: nat)
    requires t != [] && IsWordChar(t[0]) && PhraseEnd(t, 0) == a
    requires SpanEnd(t, a, IsSpace) == b && a < b < |t| && IsDigit(t[b]) && SpanEnd(t, b, IsDigit) == e
    ensures MatchStreetWithNum(t) == Some(Groups(t[..a], Some(t[b..e]), None))
  {
  }

  // ----- Reading a suggestion back -----

  /** A suggestion's `formatted_address`: street, the number after a space if there is one, a comma and the city. */
  function FormatAddress(street: string, num: string, city: string): string {
    street + (if num != "" then " " + num else "") + ", " + city
  }

  /** A phrase copied into a longer text is a phrase there. */
  lemma PhraseInside(t: string, i: nat, p: string)
    requires IsPhrase(p) && i + |p| <= |t| && t[i..i + |p|] == p
    ensures PhraseAt(t, i, i + |p|)
  {
    forall k | i <= k < i + |p| ensures t[k] == p[k - i] {
      assert t[k] == t[i..i + |p|][k - i];
    }
  }

  /** The text of `FormatAddress` around the street, the number and the city. */
  lemma FormatAddressLayout(street: string, num: string, city: string)
    requires street != [] && city != []
    ensures var t := FormatAddress(street, num, city);
      var n := if num != "" then |street| + 1 + |num| else |street|;
      && |t| == n + 2 + |city|
      && t[..|street|] == street
      && (num != "" ==> t[|street|] == ' ' && t[|street| + 1..n] == num && t[|street|..n] == " " + num)
      && t[n] == ',' && t[n + 1] == ' ' && t[n + 2..] == city
  {
  }

  /**
   * A suggestion typed back as it is shown (a street and a city that are
   * phrases, and a number that is digits or nothing) is read by the comma
   * pattern as that very street, number and city, and is not taken for a
   * number typed after a suggestion. The number group keeps its leading
   * whitespace.
   */
  lemma FormattedAddressReadBack(street: string, num: string, city: string)
    requires IsPhrase(street) && IsPhrase(city) && (num == "" || IsNumber(num))
    ensures MatchNumberAfterAddress(FormatAddress(street, num, city)) == None
    ensures MatchFullAddress(FormatAddress(street, num, city))
      == Some(Groups(street, if num == "" then None else Some(" " + num), Some(city)))
  {
    FormatAddressLayout(street, num, city);
    ReadBackAt(FormatAddress(street, num, city), street, num, city);
  }

  /** `FormattedAddressReadBack` on a text known only through its layout. */
  lemma ReadBackAt(t: string, street: string, num: string, city: string)
    requires IsPhrase(street) && IsPhrase(city) && (num == "" || IsNumber(num))
    requires var n := if num != "" then |street| + 1 + |num| else |street|;
      && |t| == n + 2 + |city|
      && t[..|street|] == street
      && (num != "" ==> t[|street|] == ' ' && t[|street| + 1..n] == num && t[|street|..n] == " " + num)
      && t[n] == ',' && t[n + 1] == ' ' && t[n + 2..] == city
    ensures MatchNumberAfterAddress(t) == None
    ensures MatchFullAddress(t) == Some(Groups(street, if num == "" then None else Some(" " + num), Some(city)))
  {
    if num == "" {
      ReadBackPlainAt(t, street, city);
    } else {
      ReadBackNumberAt(t, street, num, city);
    }
  }

  lemma ReadBackPlainAt(t: string, street: string, city: string)
    requires IsPhrase(street) && IsPhrase(city)
    requires var a := |street|;
      |t| == a + 2 + |city| && t[..a] == street && t[a] == ',' && t[a + 1] == ' ' && t[a + 2..] == city
    ensures MatchNumberAfterAddress(t) == None
    ensures MatchFullAddress(t) == Some(Groups(street, None, Some(city)))
  {
    var a := |street|;
    ReadBackPlainShape(t, street, city);
    FullAddressAtMatches(t, a, a, a, a + 2, |t|);
    FullAddressStreet(t, a, a, a, a + 2, |t|);
    ReadBackNoNumberAfter(t, a);
  }

  lemma ReadBackNumberAt(t: string, street: string, num: string, city: string)
    requires IsPhrase(street) && IsPhrase(city) && IsNumber(num)
    requires var a, n := |street|, |street| + 1 + |num|;
      && |t| == n + 2 + |city| && t[..a] == street && t[a] == ' ' && t[a + 1..n] == num
      && t[n] == ',' && t[n + 1] == ' ' && t[n + 2..] == city
    ensures MatchNumberAfterAddress(t) == None
    ensures MatchFullAddress(t) == Some(Groups(street, Some(" " + num), Some(city)))
  {
    var a, n := |street|, |street| + 1 + |num|;
    ReadBackNumberShape(t, street, num, city);
    GroupsAre(t, a, n, n + 2, |t|, street, " " + num, city);
    FullAddressReadAs(t, a, a + 1, n, n + 2, |t|, Groups(street, Some(" " + num), Some(city)));
    NoCommaAfterPhrase(t, a);
  }

  /** `FullAddressAtMatches`, with the groups named. */
  lemma FullAddressReadAs(t: string, a: nat, b: nat, n: nat, f: nat, g: nat, groups: Groups)
    requires FullAddressAt(t, a, b, n, f, g) && FullAddressGroups(t, a, n, f, g) == groups
    ensures MatchFullAddress(t) == Some(groups)
    ensures IsWordChar(t[0]) && PhraseEnd(t, 0) == a
  {
    FullAddressAtMatches(t, a, b, n, f, g);
    FullAddressStreet(t, a, b, n, f, g);
  }

  lemma GroupsAre(t: string, a: nat, n: nat, f: nat, g: nat, street: string, num: string, city: string)
    requires a < n <= |t| && f < g <= |t|
    requires t[..a] == street && t[a..n] == num && t[f..g] == city
    ensures FullAddressGroups(t, a, n, f, g) == Groups(street, Some(num), Some(city))
  {
  }

  /** The number-after pattern needs a comma right after the first phrase. */
  lemma NoCommaAfterPhrase(t: string, a: nat)
    requires a < |t| && IsWordChar(t[0]) && PhraseEnd(t, 0) == a && t[a] != ','
    ensures MatchNumberAfterAddress(t) == None
  {
  }

  lemma ReadBackPlainShape(t: string, street: string, city: string)
    requires IsPhrase(street) && IsPhrase(city)
    requires var a := |street|;
      |t| == a + 2 + |city| && t[..a] == street && t[a] == ',' && t[a + 1] == ' ' && t[a + 2..] == city
    ensures var a := |street|;
      FullAddressAt(t, a, a, a, a + 2, |t|) && t[a + 2..|t|] == city
  {
    var a := |street|;
    PhraseInside(t, 0, street);
    PhraseInside(t, a + 2, city);
  }

  lemma ReadBackNumberShape(t: string, street: string, num: string, city: string)
    requires IsPhrase(street) && IsPhrase(city) && IsNumber(num)
    requires var a, n := |street|, |street| + 1 + |num|;
      && |t| == n + 2 + |city| && t[..a] == street && t[a] == ' ' && t[a + 1..n] == num
      && t[n] == ',' && t[n + 1] == ' ' && t[n + 2..] == city
    ensures var a, n := |street|, |street| + 1 + |num|;
      FullAddressAt(t, a, a + 1, n, n + 2, |t|) && t[a..n] == " " + num && t[n + 2..|t|] == city
  {
    var a, n := |street|, |street| + 1 + |num|;
    PhraseInside(t, 0, street);
    PhraseInside(t, n + 2, city);
    DigitsInside(t, a + 1, num);
    assert PhraseStops(t, a) by {
      assert IsDigit(t[a + 1]);
    }
  }

  /** The number-after pattern needs digits after the city, and a formatted address ends with the city. */
  lemma ReadBackNoNumberAfter(t: string, a: nat)
    requires 0 < a && a + 2 < |t| && PhraseAt(t, 0, a) && PhraseEnd(t, 0) == a
    requires t[a] == ',' && t[a + 1] == ' ' && PhraseAt(t, a + 2, |t|)
    ensures MatchNumberAfterAddress(t) == None
  {
    SpanEndIs(t, a + 1, a + 2, IsSpace);
    PhraseEndIs(t, a + 2, |t|);
  }

  /**
   * Typing a space and a house number after a suggestion without a number is
   * read by the number-after pattern as that street and city with the number.
   */
  lemma NumberTypedAfterSuggestion(street: string, city: string, digits: string)
    requires IsPhrase(street) && IsPhrase(city) && IsNumber(digits)
    ensures MatchNumberAfterAddress(FormatAddress(street, "", city) + " " + digits)
      == Some(Groups(street, Some(digits), Some(city)))
  {
    var t := FormatAddress(street, "", city) + " " + digits;
    var a := |street|;
    var c := a + 2 + |city|;
    assert t[..a] == street && t[a] == ',' && t[a + 1] == ' ';
    assert t[a + 2..c] == city && t[c] == ' ' && t[c + 1..] == digits;
    NumberTypedAt(t, street, city, digits);
  }

  /** `NumberTypedAfterSuggestion` on a text known only through its layout. */
  lemma NumberTypedAt(t: string, street: string, city: string, digits: string)
    requires IsPhrase(street) && IsPhrase(city) && IsNumber(digits)
    requires var a, c := |street|, |street| + 2 + |city|;
      && |t| == c + 1 + |digits| && t[..a] == street && t[a] == ',' && t[a + 1] == ' '
      && t[a + 2..c] == city && t[c] == ' ' && t[c + 1..] == digits
    ensures MatchNumberAfterAddress(t) == Some(Groups(street, Some(digits), Some(city)))
  {
    var a := |street|;
    var c := a + 2 + |city|;
    NumberTypedShape(t, street, city, digits);
    NumberAfterReadAs(t, a, a + 2, c, c + 1, |t|, street, digits, city);
  }

  /** `NumberAfterAddressAt`, with the groups named. */
  lemma NumberAfterReadAs(t: string, a: nat, b: nat, c: nat, d: nat, e: nat, street: string, digits: string, city: string)
    requires NumberAfterAt(t, a, b, c, d, e)
    requires t[..a] == street && t[d..e] == digits && t[b..c] == city
    ensures MatchNumberAfterAddress(t) == Some(Groups(street, Some(digits), Some(city)))
  {
    NumberAfterAddressAt(t, a, b, c, d, e);
  }

  lemma NumberTypedShape(t: string, street: string, city: string, digits: string)
    requires IsPhrase(street) && IsPhrase(city) && IsNumber(digits)
    requires var a, c := |street|, |street| + 2 + |city|;
      && |t| == c + 1 + |digits| && t[..a] == street && t[a] == ',' && t[a + 1] == ' '
      && t[a + 2..c] == city && t[c] == ' ' && t[c + 1..] == digits
    ensures var a, c := |street|, |street| + 2 + |city|;
      NumberAfterAt(t, a, a + 2, c, c + 1, |t|) && t[c + 1..|t|] == digits
  {
    var a := |street|;
    var c := a + 2 + |city|;
    PhraseInside(t, 0, street);
    PhraseInside(t, a + 2, city);
    DigitsInside(t, c + 1, digits);
  }

  /** A number copied into a longer text is a run of digits there. */
  lemma DigitsInside(t: string, i: nat, p: string)
    requires IsNumber(p) && i + |p| <= |t| && t[i..i + |p|] == p
    ensures Run(t, i, i + |p|, IsDigit)
  {
    forall k | i <= k < i + |p| ensures IsDigit(t[k]) {
      assert t[k] == t[i..i + |p|][k - i];
    }
  }
}
