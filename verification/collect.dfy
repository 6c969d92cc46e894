/**
 * Looking up the street table for each reading of the user's text
 * (`collect_dfs`): one table of candidate rows per reading that has a street,
 * stopping early once enough rows have been found.
 */
module Collector {
  import opened Wrappers
  import opened Seqs
  import opened Text
  import opened Tables
  import opened Segmenter

  /**
   * A street row annotated with the reading that found it: the typed number,
   * street and city, and the reading's format factor.
   */
  datatype Candidate = Candidate(
    row: StreetRow,
    num: string,
    streetInput: string,
    cityInput: string,
    formatFactor: real)

  /** The row lies in one of the reading's cities, or the reading has none. */
  predicate InCities(d: Interpretation, row: StreetRow) {
    d.matchingCities == [] || row.cityName in d.matchingCities
  }

  /**
   * The row is one the reading asks for: for a one-character street (after
   * stripping) an official name starting with it, otherwise a name containing
   * the street as typed; in either case in one of the reading's cities.
   */
  predicate Wanted(d: Interpretation, row: StreetRow) {
    var street := Strip(d.street);
    && InCities(d, row)
    && if |street| == 1 then row.isOfficialName && StartsWith(row.streetName, street)
       else Contains(row.streetName, d.street)
  }

  /** All wanted rows, in table order. */
  function WantedRows(streets: seq<StreetRow>, d: Interpretation): seq<StreetRow> {
    Filter(streets, row => Wanted(d, row))
  }

  /**
   * The table lookup of one reading: for a one-character street the first five
   * official names starting with it, otherwise every name containing the
   * street as typed; either restricted to the reading's cities if it has any.
   */
  function StreetMatches(streets: seq<StreetRow>, d: Interpretation): seq<StreetRow> {
    var street := Strip(d.street);
    if |street| == 1 then
      if d.matchingCities != [] then
        Head(Filter(streets, (row: StreetRow) => row.isOfficialName && row.cityName in d.matchingCities
                                    && StartsWith(row.streetName, street)), 5)
      else
        Head(Filter(streets, (row: StreetRow) => row.isOfficialName && StartsWith(row.streetName, street)), 5)
    else if d.matchingCities != [] then
      Filter(streets, (row: StreetRow) => row.cityName in d.matchingCities && Contains(row.streetName, d.street))
    else
      Filter(streets, (row: StreetRow) => Contains(row.streetName, d.street))
  }

  /**
   * The lookup finds wanted rows in table order: for a one-character street
   * the first five wanted rows (all of them when there are fewer), otherwise
   * every wanted row.
   */
  lemma StreetMatchesSpec(streets: seq<StreetRow>, d: Interpretation)
    ensures var r, wanted := StreetMatches(streets, d), WantedRows(streets, d);
      && SubsequenceOf(r, streets)
      && (forall row :: row in r ==> Wanted(d, row))
      && (|Strip(d.street)| == 1 ==>
            |r| == (if |wanted| < 5 then |wanted| else 5) && r == wanted[..|r|])
      && (|Strip(d.street)| != 1 ==> r == wanted)
  {
    var street := Strip(d.street);
    var wanted := WantedRows(streets, d);
    var r := StreetMatches(streets, d);
    if |street| == 1 {
      if d.matchingCities != [] {
        FilterSame(streets, (row: StreetRow) => row.isOfficialName && row.cityName in d.matchingCities
                                   && StartsWith(row.streetName, street), (row: StreetRow) => Wanted(d, row));
      } else {
        FilterSame(streets, (row: StreetRow) => row.isOfficialName && StartsWith(row.streetName, street), (row: StreetRow) => Wanted(d, row));
      }
      PrefixSubsequence(wanted, streets, |r|);
      assert forall row :: row in r ==> row in wanted;
    } else if d.matchingCities != [] {
      FilterSame(streets, (row: StreetRow) => row.cityName in d.matchingCities && Contains(row.streetName, d.street),
                 (row: StreetRow) => Wanted(d, row));
    } else {
      FilterSame(streets, (row: StreetRow) => Contains(row.streetName, d.street), (row: StreetRow) => Wanted(d, row));
    }
  }

  /** The typed number, stripped, or empty when the reading has none. */
  function NumInput(d: Interpretation): string {
    match d.num
    case Some(n) => if n != "" then Strip(n) else ""
    case None => ""
  }

  /** The typed city, or empty when the reading has none. */
  function CityInput(d: Interpretation): string {
    match d.city
    case Some(c) => c
    case None => ""
  }

  /** The rows one reading finds, each annotated with that reading. */
  function Frame(streets: seq<StreetRow>, d: Interpretation): (r: seq<Candidate>)
    ensures |r| == |StreetMatches(streets, d)|
    ensures forall k :: 0 <= k < |r| ==> r[k].row == StreetMatches(streets, d)[k]
    ensures forall c :: c in r ==>
      && c.num == NumInput(d) && c.streetInput == Strip(d.street) && c.cityInput == CityInput(d)
      && c.formatFactor == d.formatFactor.GetOr(1.0)
  {
    Map(StreetMatches(streets, d),
        row => Candidate(row, NumInput(d), Strip(d.street), CityInput(d), d.formatFactor.GetOr(1.0)))
  }

  // ----- The loop over readings -----

  /** The reading has a street to look up. */
  predicate HasStreet(d: Interpretation) {
    d.street != ""
  }

  /** The readings that are looked up, in order. */
  function Eligible(dicts: seq<Interpretation>): seq<Interpretation> {
    Filter(dicts, HasStreet)
  }

  /** The number of rows in all frames together, repeats included. */
  function TotalRows(frames: seq<seq<Candidate>>): nat {
    if frames == [] then 0 else |frames[0]| + TotalRows(frames[1..])
  }

  /**
   * After `frames`, with `before` rows found earlier, the lookup stops: the
   * last frame alone has `maxNum` rows or more, or the running total exceeds
   * twice `maxNum`.
   */
  predicate StopsAfter(before: int, frames: seq<seq<Candidate>>, maxNum: int) {
    frames != [] && (|frames[|frames| - 1]| >= maxNum || before + TotalRows(frames) > 2 * maxNum)
  }

  /** The lookup as a function of the reading, for the street table `streets`. */
  function FrameOf(streets: seq<StreetRow>): Interpretation -> seq<Candidate> {
    d => Frame(streets, d)
  }

  /**
   * The frames collected from `dicts` when `numRes` rows were found before,
   * each reading being looked up with `frameOf`.
   */
  function CollectFrom(frameOf: Interpretation -> seq<Candidate>, dicts: seq<Interpretation>, maxNum: int, numRes: int)
    : seq<seq<Candidate>>
    decreases |dicts|
  {
    if dicts == [] then []
    else if !HasStreet(dicts[0]) then CollectFrom(frameOf, dicts[1..], maxNum, numRes)
    else
      var df := frameOf(dicts[0]);
      if |df| >= maxNum || numRes + |df| > 2 * maxNum then [df]
      else [df] + CollectFrom(frameOf, dicts[1..], maxNum, numRes + |df|)
  }

  /** `collect_dfs(dicts, max_num)`. */
  function Collected(streets: seq<StreetRow>, dicts: seq<Interpretation>, maxNum: int): seq<seq<Candidate>> {
    CollectFrom(FrameOf(streets), dicts, maxNum, 0)
  }

  /**
   * The frames are those of the readings that have a street, in order, up to
   * and including the first after which the lookup stops; the lookup stops
   * before the readings run out only at such a point.
   */
  lemma CollectedSpec(streets: seq<StreetRow>, dicts: seq<Interpretation>, maxNum: int)
    ensures var r, e := Collected(streets, dicts, maxNum), Eligible(dicts);
      && |r| <= |e|
      && (forall k :: 0 <= k < |r| ==> r[k] == Frame(streets, e[k]))
      && (forall j :: 0 < j < |r| ==> !StopsAfter(0, r[..j], maxNum))
      && (|r| < |e| ==> StopsAfter(0, r, maxNum))
  {
    CollectFromSpec(FrameOf(streets), dicts, maxNum, 0);
  }

  lemma CollectFromSpec(frameOf: Interpretation -> seq<Candidate>, dicts: seq<Interpretation>, maxNum: int, n: int)
    ensures var r, e := CollectFrom(frameOf, dicts, maxNum, n), Eligible(dicts);
      && |r| <= |e|
      && (forall k :: 0 <= k < |r| ==> r[k] == frameOf(e[k]))
      && (forall j :: 0 < j < |r| ==> !StopsAfter(n, r[..j], maxNum))
      && (|r| < |e| ==> StopsAfter(n, r, maxNum))
  {
    CollectFromFrames(frameOf, dicts, maxNum, n);
    CollectFromStops(frameOf, dicts, maxNum, n);
  }

  /** The readings without a street are skipped. */
  lemma EligibleCons(dicts: seq<Interpretation>)
    requires dicts != []
    ensures Eligible(dicts) == if HasStreet(dicts[0]) then [dicts[0]] + Eligible(dicts[1..]) else Eligible(dicts[1..])
  {
    assert dicts == [dicts[0]] + dicts[1..];
  }

  /** The collected frames are the frames of the first readings that have a street. */
  lemma {:induction false} CollectFromFrames(frameOf: Interpretation -> seq<Candidate>, dicts: seq<Interpretation>, maxNum: int, n: int)
    ensures var r, e := CollectFrom(frameOf, dicts, maxNum, n), Eligible(dicts);
      |r| <= |e| && forall k :: 0 <= k < |r| ==> r[k] == frameOf(e[k])
    decreases |dicts|
  {
    if dicts != [] {
      var rest := dicts[1..];
      EligibleCons(dicts);
      if !HasStreet(dicts[0]) {
        CollectFromFrames(frameOf, rest, maxNum, n);
      } else {
        var df := frameOf(dicts[0]);
        var r, e := CollectFrom(frameOf, dicts, maxNum, n), Eligible(dicts);
        var r', e' := CollectFrom(frameOf, rest, maxNum, n + |df|), Eligible(rest);
        CollectFromFrames(frameOf, rest, maxNum, n + |df|);
        if !(|df| >= maxNum || n + |df| > 2 * maxNum) {
          assert r == [df] + r';
          forall k | 0 < k < |r| ensures r[k] == frameOf(e[k]) {
            assert r[k] == r'[k - 1] && e[k] == e'[k - 1];
          }
        }
      }
    }
  }

  /** The lookup stops only after the last collected frame, and always does when readings remain. */
  lemma {:induction false} CollectFromStops(frameOf: Interpretation -> seq<Candidate>, dicts: seq<Interpretation>, maxNum: int, n: int)
    ensures var r := CollectFrom(frameOf, dicts, maxNum, n);
      && (forall j :: 0 < j < |r| ==> !StopsAfter(n, r[..j], maxNum))
      && (|r| < |Eligible(dicts)| ==> StopsAfter(n, r, maxNum))
    decreases |dicts|
  {
    if dicts != [] {
      var rest := dicts[1..];
      EligibleCons(dicts);
      if !HasStreet(dicts[0]) {
        CollectFromStops(frameOf, rest, maxNum, n);
      } else {
        var df := frameOf(dicts[0]);
        assert TotalRows([df]) == |df| by {
          assert [df][1..] == [];
        }
        if !(|df| >= maxNum || n + |df| > 2 * maxNum) {
          var r' := CollectFrom(frameOf, rest, maxNum, n + |df|);
          CollectFromStops(frameOf, rest, maxNum, n + |df|);
          CollectFromFirst(frameOf, dicts, maxNum, n);
          PrefixesCons(n, df, r', maxNum);
          if |r'| < |Eligible(rest)| {
            LastCons(n, df, r', maxNum);
          }
        }
      }
    }
  }

  /** A first reading with a street that does not stop the lookup. */
  lemma CollectFromFirst(frameOf: Interpretation -> seq<Candidate>, dicts: seq<Interpretation>, maxNum: int, n: int)
    requires dicts != [] && HasStreet(dicts[0])
    requires !(|frameOf(dicts[0])| >= maxNum || n + |frameOf(dicts[0])| > 2 * maxNum)
    ensures CollectFrom(frameOf, dicts, maxNum, n)
      == [frameOf(dicts[0])] + CollectFrom(frameOf, dicts[1..], maxNum, n + |frameOf(dicts[0])|)
  {
  }

  /** A first frame that does not stop the lookup keeps every later prefix from stopping it early. */
  lemma PrefixesCons(n: int, df: seq<Candidate>, rest: seq<seq<Candidate>>, maxNum: int)
    requires !(|df| >= maxNum || n + |df| > 2 * maxNum)
    requires forall j :: 0 < j < |rest| ==> !StopsAfter(n + |df|, rest[..j], maxNum)
    ensures forall j :: 0 < j < |[df] + rest| ==> !StopsAfter(n, ([df] + rest)[..j], maxNum)
  {
    var r := [df] + rest;
    forall j | 0 < j < |r| ensures !StopsAfter(n, r[..j], maxNum) {
      if j == 1 {
        assert r[..1] == [df] && [df][1..] == [];
        assert TotalRows([df]) == |df| + TotalRows([]);
      } else {
        StopsAfterCons(n, df, rest, j, maxNum);
      }
    }
  }

  /** The lookup that stops after `rest` stops after `[df] + rest`. */
  lemma LastCons(n: int, df: seq<Candidate>, rest: seq<seq<Candidate>>, maxNum: int)
    requires StopsAfter(n + |df|, rest, maxNum)
    ensures StopsAfter(n, [df] + rest, maxNum)
  {
    StopsAfterCons(n, df, rest, |rest| + 1, maxNum);
    assert ([df] + rest)[..|rest| + 1] == [df] + rest && rest[..|rest|] == rest;
  }

  /** Stopping after a prefix of `[df] + rest` is stopping after the shorter prefix of `rest`, `df` counted before. */
  lemma StopsAfterCons(n: int, df: seq<Candidate>, rest: seq<seq<Candidate>>, j: int, maxNum: int)
    requires 1 < j <= |rest| + 1
    ensures StopsAfter(n, ([df] + rest)[..j], maxNum) == StopsAfter(n + |df|, rest[..j - 1], maxNum)
  {
    var p := ([df] + rest)[..j];
    assert p[1..] == rest[..j - 1];
    assert p[j - 1] == rest[..j - 1][j - 2];
  }

  /** `collect_dfs`: the readings are looked up in the street table `streets`. */
  method CollectFrames(streets: seq<StreetRow>, dicts: seq<Interpretation>, maxNum: int := 15)
    returns (dfs: seq<seq<Candidate>>)
    ensures dfs == Collected(streets, dicts, maxNum)
  {
    dfs := CollectWith(FrameOf(streets), dicts, maxNum);
  }

  /**
   * The loop of `collect_dfs`, with its running count and early exit, for
   * any lookup `frameOf`.
   */
  method CollectWith(frameOf: Interpretation -> seq<Candidate>, dicts: seq<Interpretation>, maxNum: int)
    returns (dfs: seq<seq<Candidate>>)
    ensures dfs == CollectFrom(frameOf, dicts, maxNum, 0)
  {
    dfs := [];
    var numRes := 0;
    for i := 0 to |dicts|
      invariant dfs + CollectFrom(frameOf, dicts[i..], maxNum, numRes) == CollectFrom(frameOf, dicts, maxNum, 0)
    {
      var d := dicts[i];
      ghost var before := dfs;
      CollectFromUnfold(frameOf, dicts, maxNum, numRes, i);
      if d.street != "" {
        var df := frameOf(d);
        dfs := dfs + [df];
        numRes := numRes + |df|;
        if |df| >= maxNum || numRes > maxNum * 2 {
          return;
        }
        AppendAssoc(before, [df], CollectFrom(frameOf, dicts[i + 1..], maxNum, numRes));
      }
    }
    assert dicts[|dicts|..] == [];
    assert dfs + [] == dfs;
  }

  /** One step of `CollectFrom` on the readings from position `i` on. */
  lemma CollectFromUnfold(frameOf: Interpretation -> seq<Candidate>, dicts: seq<Interpretation>, maxNum: int, numRes: int, i: nat)
    requires i < |dicts|
    ensures var d, rest := dicts[i], CollectFrom(frameOf, dicts[i + 1..], maxNum, numRes);
      CollectFrom(frameOf, dicts[i..], maxNum, numRes) ==
        if !HasStreet(d) then rest
        else
          var df := frameOf(d);
          if |df| >= maxNum || numRes + |df| > 2 * maxNum then [df]
          else [df] + CollectFrom(frameOf, dicts[i + 1..], maxNum, numRes + |df|)
  {
    assert dicts[i..][0] == dicts[i] && dicts[i..][1..] == dicts[i + 1..];
  }
  /** Every row a reading's frame holds is a row of the table that the reading asks for. */
  lemma FrameRowsWanted(streets: seq<StreetRow>, d: Interpretation, c: Candidate)
    requires c in Frame(streets, d)
    ensures c.row in streets && Wanted(d, c.row)
  {
    var f := Frame(streets, d);
    var m := StreetMatches(streets, d);
    StreetMatchesSpec(streets, d);
    var k :| 0 <= k < |f| && f[k] == c;
    assert c.row == m[k] && m[k] in m;
    SubsequenceMembers(m, streets);
  }

  /** Every collected row is a row of the table that some reading with a street asks for. */
  lemma CollectedRowsWanted(streets: seq<StreetRow>, dicts: seq<Interpretation>, maxNum: int)
    ensures forall c :: c in Concat(Collected(streets, dicts, maxNum)) ==>
      c.row in streets && exists d :: d in dicts && HasStreet(d) && Wanted(d, c.row)
  {
    var r, e := Collected(streets, dicts, maxNum), Eligible(dicts);
    CollectFromFrames(FrameOf(streets), dicts, maxNum, 0);
    forall c: Candidate | c in Concat(r) ensures c.row in streets && exists d :: d in dicts && HasStreet(d) && Wanted(d, c.row) {
      var k :| 0 <= k < |r| && c in r[k];
      assert e[k] in e && r[k] == Frame(streets, e[k]);
      FrameRowsWanted(streets, e[k], c);
    }
  }
}
