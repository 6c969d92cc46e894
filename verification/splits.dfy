/** Cutting a text at a word boundary into two non-empty parts (`possible_splits`). */
module Splits {
  import opened Text

  /**
   * Every way to cut `text` into a non-empty leading and a non-empty trailing
   * part at a word boundary, in increasing cut position; whitespace runs
   * become single spaces.
   */
  function PossibleSplits(text: string): seq<(string, string)> {
    if text == [] then []
    else
      var ws := Words(text);
      if |ws| < 2 then []
      else seq(|ws| - 1, i requires 0 <= i < |ws| - 1 => (Join(ws[..i + 1]), Join(ws[i + 1..])))
  }

  /** Neither empty nor starting or ending with whitespace. */
  predicate Unpadded(s: string) {
    s != [] && NonSpace(s[0]) && NonSpace(s[|s| - 1])
  }

  /**
   * `(front, back)` is the cut of the word list `ws` after its first `cut` words:
   * splitting each part again gives those words back, both parts are unpadded,
   * and joining them with one space gives the normalised text.
   */
  predicate CutAt(ws: seq<string>, cut: nat, front: string, back: string) {
    && 0 < cut < |ws|
    && Words(front) == ws[..cut] && Words(back) == ws[cut..]
    && Unpadded(front) && Unpadded(back)
    && front + " " + back == Join(ws)
  }

  lemma JoinedCut(ws: seq<string>, cut: nat)
    requires 0 < cut < |ws|
    requires forall k :: 0 <= k < |ws| ==> IsToken(ws[k])
    ensures CutAt(ws, cut, Join(ws[..cut]), Join(ws[cut..]))
  {
    var a, b := ws[..cut], ws[cut..];
    assert forall k :: 0 <= k < |a| ==> IsToken(a[k]);
    assert forall k :: 0 <= k < |b| ==> IsToken(b[k]);
    WordsOfJoin(a);
    WordsOfJoin(b);
    JoinOfTokens(a);
    JoinOfTokens(b);
    assert a + b == ws;
    JoinAppend(a, b);
  }

  /**
   * A text of n words has n - 1 splits (none when it has no words), and the
   * i-th split is the cut after its first i + 1 words.
   */
  lemma PossibleSplitsSpec(text: string)
    ensures var n := |Words(text)|;
      |PossibleSplits(text)| == (if n == 0 then 0 else n - 1)
    ensures forall i :: 0 <= i < |PossibleSplits(text)| ==>
      CutAt(Words(text), i + 1, PossibleSplits(text)[i].0, PossibleSplits(text)[i].1)
  {
    var ws := Words(text);
    assert text == [] ==> ws == [];
    var splits := PossibleSplits(text);
    forall i | 0 <= i < |splits|
      ensures CutAt(ws, i + 1, splits[i].0, splits[i].1)
    {
      JoinedCut(ws, i + 1);
    }
  }
}
