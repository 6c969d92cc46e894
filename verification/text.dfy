/**
 * Character classes and the string operations the address code relies on:
 * Python's `str.strip`, `str.isspace`, `str.split()` and `' '.join`, and the
 * literal (non-regex) `startswith` / `contains` tests of the table filters.
 */
module Text {

  /** Whitespace as Python's `str.isspace` and the `\s` class of `re` on text define it. */
  predicate IsSpace(c: char) {
    ('\t' <= c <= '\r') || ('\U{1C}' <= c <= '\U{1F}') || c == ' '
    || c == '\U{85}' || c == '\U{A0}' || c == '\U{1680}'
    || ('\U{2000}' <= c <= '\U{200A}') || c == '\U{2028}' || c == '\U{2029}'
    || c == '\U{202F}' || c == '\U{205F}' || c == '\U{3000}'
  }

  predicate NonSpace(c: char) {
    !IsSpace(c)
  }

  /** A decimal digit, the `\d` class. */
  predicate IsDigit(c: char) {
    '0' <= c <= '9'
  }

  /**
   * A character of a word: a letter (Latin or Hebrew), a hyphen, an apostrophe
   * or a double quote, the class `(?:[^\W\d_]|-|'|")`.
   */
  predicate IsWordChar(c: char) {
    ('a' <= c <= 'z') || ('A' <= c <= 'Z') || ('\U{5D0}' <= c <= '\U{5EA}')
    || c == '-' || c == '\'' || c == '"'
  }

  /** The end of the longest run of characters satisfying `p` that starts at `i`. */
  function SpanEnd(s: string, i: nat, p: char -> bool): (j: nat)
    requires i <= |s|
    ensures i <= j <= |s|
    ensures forall k :: i <= k < j ==> p(s[k])
    ensures j == |s| || !p(s[j])
    decreases |s| - i
  {
    if i < |s| && p(s[i]) then SpanEnd(s, i + 1, p) else i
  }

  /** The start of the longest run of characters satisfying `p` that ends at `j`. */
  function SpanStart(s: string, j: nat, p: char -> bool): (i: nat)
    requires j <= |s|
    ensures i <= j
    ensures forall k :: i <= k < j ==> p(s[k])
    ensures i == 0 || !p(s[i - 1])
  {
    if 0 < j && p(s[j - 1]) then SpanStart(s, j - 1, p) else j
  }

  /** Every character is whitespace: `not text or text.isspace()`. */
  predicate IsBlank(s: string) {
    forall k :: 0 <= k < |s| ==> IsSpace(s[k])
  }

  /** Python's `str.strip()`: leading and trailing whitespace removed. */
  function Strip(s: string): (r: string)
    ensures IsBlank(s) <==> r == []
    ensures r != [] ==> NonSpace(r[0]) && NonSpace(r[|r| - 1])
    ensures |r| <= |s|
    ensures exists i :: 0 <= i <= |s| - |r| && s[i..i + |r|] == r && IsBlank(s[..i]) && IsBlank(s[i + |r|..])
  {
    var a := SpanEnd(s, 0, IsSpace);
    if a == |s| then
      BlankStripped(s);
      []
    else
      var b := SpanStart(s, |s|, IsSpace);
      StrippedSlice(s, a, b);
      s[a..b]
  }

  /** A blank text is all whitespace around an empty middle. */
  lemma BlankStripped(s: string)
    requires forall k :: 0 <= k < |s| ==> IsSpace(s[k])
    ensures var r: string := [];
      IsBlank(s) && exists i :: 0 <= i <= |s| - |r| && s[i..i + |r|] == r && IsBlank(s[..i]) && IsBlank(s[i + |r|..])
  {
    assert s[0..0] == [] && s[..0] == [] && s[0..] == s;
  }

  /** Cutting only whitespace off both ends of a text that is not blank. */
  lemma StrippedSlice(s: string, a: nat, b: nat)
    requires a < |s| && b <= |s| && NonSpace(s[a])
    requires forall k :: 0 <= k < a ==> IsSpace(s[k])
    requires forall k :: b <= k < |s| ==> IsSpace(s[k])
    requires b == 0 || !IsSpace(s[b - 1])
    ensures a < b && !IsBlank(s)
    ensures var r := s[a..b];
      && r != [] && NonSpace(r[0]) && NonSpace(r[|r| - 1]) && |r| <= |s|
      && exists i :: 0 <= i <= |s| - |r| && s[i..i + |r|] == r && IsBlank(s[..i]) && IsBlank(s[i + |r|..])
  {
    var r := s[a..b];
    assert r[0] == s[a] && r[|r| - 1] == s[b - 1];
    assert forall k :: 0 <= k < a ==> s[..a][k] == s[k];
    assert forall k :: 0 <= k < |s| - b ==> s[b..][k] == s[b + k];
    assert a + |r| == b && s[a..a + |r|] == r;
    assert IsBlank(s[..a]) && IsBlank(s[a + |r|..]);
  }

  /** Stripping a text that neither starts nor ends with whitespace leaves it as it is. */
  lemma StripUnchanged(s: string)
    requires s != [] && NonSpace(s[0]) && NonSpace(s[|s| - 1])
    ensures Strip(s) == s
  {
    var r := Strip(s);
    var i :| 0 <= i <= |s| - |r| && s[i..i + |r|] == r && IsBlank(s[..i]) && IsBlank(s[i + |r|..]);
  }

  /** A non-empty run of non-whitespace characters: one element of `str.split()`. */
  predicate IsToken(w: string) {
    w != [] && forall k :: 0 <= k < |w| ==> NonSpace(w[k])
  }

  /** Python's `str.split()` with no argument: the maximal runs of non-whitespace. */
  function Words(s: string): (ws: seq<string>)
    ensures forall k :: 0 <= k < |ws| ==> IsToken(ws[k])
    decreases |s|
  {
    if s == [] then []
    else if IsSpace(s[0]) then Words(s[1..])
    else
      var n := SpanEnd(s, 0, NonSpace);
      [s[..n]] + Words(s[n..])
  }

  /** `' '.join(ws)`. */
  function Join(ws: seq<string>): string {
    if |ws| == 0 then ""
    else if |ws| == 1 then ws[0]
    else ws[0] + " " + Join(ws[1..])
  }

  /** Joining two non-empty lists of words is joining each and putting one space between. */
  lemma {:induction false} JoinAppend(a: seq<string>, b: seq<string>)
    requires a != [] && b != []
    ensures Join(a + b) == Join(a) + " " + Join(b)
  {
    if |a| == 1 {
      assert (a + b)[1..] == b;
    } else {
      assert (a + b)[1..] == a[1..] + b;
      JoinAppend(a[1..], b);
    }
  }

  /** Joining a non-empty list of tokens gives a text that is neither empty nor padded. */
  lemma {:induction false} JoinOfTokens(ws: seq<string>)
    requires ws != [] && forall k :: 0 <= k < |ws| ==> IsToken(ws[k])
    ensures Join(ws) != [] && NonSpace(Join(ws)[0]) && NonSpace(Join(ws)[|Join(ws)| - 1])
  {
    if |ws| > 1 {
      JoinOfTokens(ws[1..]);
    }
  }

  /** Splitting a text made of a token followed by whitespace and more text. */
  lemma WordsAfterToken(w: string, rest: string)
    requires IsToken(w)
    requires rest == [] || IsSpace(rest[0])
    ensures Words(w + rest) == [w] + Words(rest)
  {
    var s := w + rest;
    assert s[0] == w[0];
    var n := SpanEnd(s, 0, NonSpace);
    assert forall k :: 0 <= k < |w| ==> s[k] == w[k];
    assert |w| == |s| || s[|w|] == rest[0];
    assert s[..n] == w;
    assert s[n..] == rest;
  }

  /** `split` undoes `join` on a list of tokens. */
  lemma {:induction false} WordsOfJoin(ws: seq<string>)
    requires forall k :: 0 <= k < |ws| ==> IsToken(ws[k])
    ensures Words(Join(ws)) == ws
  {
    if |ws| == 0 {
    } else if |ws| == 1 {
      WordsAfterToken(ws[0], "");
      assert ws[0] + "" == ws[0];
    } else {
      var rest := Join(ws[1..]);
      assert Join(ws) == ws[0] + (" " + rest);
      WordsAfterToken(ws[0], " " + rest);
      assert (" " + rest)[1..] == rest;
      WordsOfJoin(ws[1..]);
    }
  }

  /** `s.startswith(p)`. */
  predicate StartsWith(s: string, p: string) {
    |p| <= |s| && s[..|p|] == p
  }

  /** `p in s`, a literal substring test. */
  predicate Contains(s: string, p: string)
    decreases |s|
  {
    StartsWith(s, p) || (s != [] && Contains(s[1..], p))
  }
}
